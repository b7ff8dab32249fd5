/**
The soak harness's idle-readiness monitor: a state machine over a stream of backend observations, and the
exact pattern of observations at which it first reports readiness.
*/
module SoakReadiness {
  import opened Wrappers

  datatype Pass = CaughtUp | Full | Neither

  /** One probe: no answer, or the latest conversation pass and the maintenance state. */
  datatype Observation = Failed | Seen(settled: bool, pass: Pass, number: int, maintenance: int)

  predicate IsPass(o: Observation, p: Pass) { o.Seen? && o.settled && o.pass == p }

  /******* What the monitor has learnt from the first `n` observations *******/

  /** Caught up at `i`, and no unsettled maintenance since. */
  ghost predicate SettledSince(s: seq<Observation>, n: nat, i: int) {
    && 0 <= i < n <= |s| && IsPass(s[i], CaughtUp)
    && forall q | i <= q < n && s[q].Seen? :: s[q].settled
  }

  /** Revalidated in full at `j`, and no full pass nor any maintenance since. */
  ghost predicate RevalidatedSince(s: seq<Observation>, n: nat, j: int) {
    && 0 <= j < n <= |s| && IsPass(s[j], Full)
    && (exists i :: i < j && SettledSince(s, n, i))
    && forall q | j < q < n && s[q].Seen? :: s[q].pass != Full && (s[q].pass == CaughtUp ==> s[q].maintenance == s[j].maintenance)
  }

  /** The answer before `n` was not a caught-up pass. */
  ghost predicate BrokenBefore(s: seq<Observation>, n: nat) {
    exists p :: 0 <= p < n <= |s| && s[p].Seen? && s[p].pass != CaughtUp && forall q | p < q < n :: s[q].Failed?
  }

  /** A run of caught-up passes, begun at `l` after a revalidation that still stands. */
  ghost predicate RunSince(s: seq<Observation>, n: nat, l: int) {
    && 0 <= l < n <= |s| && IsPass(s[l], CaughtUp) && BrokenBefore(s, l)
    && (exists j :: j < l && RevalidatedSince(s, n, j))
    && forall q | l <= q < n && s[q].Seen? :: s[q].pass == CaughtUp
  }

  /** A later caught-up pass of such a run, with the maintenance unchanged. */
  ghost predicate Ready(s: seq<Observation>, k: nat) {
    && k < |s| && IsPass(s[k], CaughtUp)
    && exists l :: RunSince(s, k, l) && s[l].maintenance == s[k].maintenance && s[l].number < s[k].number
  }

  ghost predicate AnySettled(s: seq<Observation>, n: nat) { exists i :: SettledSince(s, n, i) }
  ghost predicate AnyRevalidated(s: seq<Observation>, n: nat) { exists j :: RevalidatedSince(s, n, j) }
  ghost predicate AnyRun(s: seq<Observation>, n: nat) { exists l :: RunSince(s, n, l) }

  /******* One observation further *******/

  lemma SettledStep(s: seq<Observation>, n: nat)
    requires n < |s|
    ensures forall i | i < n :: SettledSince(s, n + 1, i) <==> SettledSince(s, n, i) && (s[n].Seen? ==> s[n].settled)
    ensures SettledSince(s, n + 1, n) <==> IsPass(s[n], CaughtUp)
  {
    forall i | i < n
      ensures SettledSince(s, n + 1, i) <==> SettledSince(s, n, i) && (s[n].Seen? ==> s[n].settled)
    {
      if SettledSince(s, n + 1, i) {
        assert forall q | i <= q < n && s[q].Seen? :: s[q].settled;
      }
    }
  }

  lemma RevalidatedStep(s: seq<Observation>, n: nat, j: int)
    requires 0 <= j < n < |s|
    ensures RevalidatedSince(s, n + 1, j) <==>
              RevalidatedSince(s, n, j) &&
              (s[n].Seen? ==> s[n].settled && s[n].pass != Full && (s[n].pass == CaughtUp ==> s[n].maintenance == s[j].maintenance))
  {
    SettledStep(s, n);
    if RevalidatedSince(s, n, j) && (s[n].Seen? ==> s[n].settled) {
      var i :| i < j && SettledSince(s, n, i);
      assert SettledSince(s, n + 1, i);
    }
    if RevalidatedSince(s, n + 1, j) {
      var i :| i < j && SettledSince(s, n + 1, i);
      assert SettledSince(s, n, i);
    }
  }

  lemma RevalidatedNow(s: seq<Observation>, n: nat)
    requires n < |s|
    ensures RevalidatedSince(s, n + 1, n) <==> IsPass(s[n], Full) && exists i :: SettledSince(s, n, i)
  {
    SettledStep(s, n);
    if IsPass(s[n], Full) && exists i :: SettledSince(s, n, i) {
      var i :| SettledSince(s, n, i);
      assert SettledSince(s, n + 1, i);
    }
    if RevalidatedSince(s, n + 1, n) {
      var i :| i < n && SettledSince(s, n + 1, i);
      assert SettledSince(s, n, i);
    }
  }

  lemma RunStep(s: seq<Observation>, n: nat, l: int)
    requires 0 <= l < n < |s|
    ensures RunSince(s, n + 1, l) <==>
              RunSince(s, n, l) && (s[n].Seen? ==> IsPass(s[n], CaughtUp) && s[n].maintenance == s[l].maintenance)
  {
    forall j | 0 <= j < l ensures RevalidatedSince(s, n + 1, j) <==>
        RevalidatedSince(s, n, j) &&
        (s[n].Seen? ==> s[n].settled && s[n].pass != Full && (s[n].pass == CaughtUp ==> s[n].maintenance == s[j].maintenance))
    {
      RevalidatedStep(s, n, j);
    }
    if RunSince(s, n, l) {
      var j :| j < l && RevalidatedSince(s, n, j);
      assert s[l].maintenance == s[j].maintenance;
      if s[n].Seen? ==> IsPass(s[n], CaughtUp) && s[n].maintenance == s[l].maintenance {
        assert RevalidatedSince(s, n + 1, j);
      }
    }
    if RunSince(s, n + 1, l) {
      var j :| j < l && RevalidatedSince(s, n + 1, j);
      assert RevalidatedSince(s, n, j);
      assert s[l].maintenance == s[j].maintenance;
    }
  }

  lemma RunNow(s: seq<Observation>, n: nat)
    requires n < |s|
    ensures RunSince(s, n + 1, n) <==>
              IsPass(s[n], CaughtUp) && BrokenBefore(s, n) && exists j :: RevalidatedSince(s, n, j) && s[j].maintenance == s[n].maintenance
  {
    forall j | 0 <= j < n ensures RevalidatedSince(s, n + 1, j) <==>
        RevalidatedSince(s, n, j) &&
        (s[n].Seen? ==> s[n].settled && s[n].pass != Full && (s[n].pass == CaughtUp ==> s[n].maintenance == s[j].maintenance))
    {
      RevalidatedStep(s, n, j);
    }
  }

  lemma BrokenStep(s: seq<Observation>, n: nat)
    requires n < |s|
    ensures BrokenBefore(s, n + 1) <==> if s[n].Failed? then BrokenBefore(s, n) else s[n].pass != CaughtUp
  {
    if s[n].Failed? && BrokenBefore(s, n) {
      var p :| 0 <= p < n && s[p].Seen? && s[p].pass != CaughtUp && forall q | p < q < n :: s[q].Failed?;
      assert forall q | p < q < n + 1 :: s[q].Failed?;
    }
    if s[n].Failed? && BrokenBefore(s, n + 1) {
      var p :| 0 <= p < n + 1 && s[p].Seen? && s[p].pass != CaughtUp && forall q | p < q < n + 1 :: s[q].Failed?;
      assert p < n;
    }
  }

  /******* The monitor *******/

  datatype Candidate = Candidate(number: int, maintenance: int)

  datatype State = State(candidate: Option<Candidate>, settledCaughtUp: bool, revalidated: Option<int>)

  /** The three variables say exactly what the observations so far say. */
  ghost predicate Reflects(s: seq<Observation>, n: nat, m: State) {
    && n <= |s|
    && (m.settledCaughtUp <==> AnySettled(s, n))
    && (forall j :: RevalidatedSince(s, n, j) ==> m.revalidated == Some(s[j].maintenance))
    && (m.revalidated.Some? ==> AnyRevalidated(s, n))
    && (forall l :: RunSince(s, n, l) ==> m.candidate == Some(Candidate(s[l].number, s[l].maintenance)))
    && (m.candidate.Some? ==> m.revalidated.Some? && AnyRun(s, n))
    && (m.revalidated.Some? && m.candidate.None? ==> BrokenBefore(s, n))
    && (m.candidate.Some? ==> !BrokenBefore(s, n))
  }

  function After(o: Observation, m: State): State {
    if o.Failed? then m
    else if !o.settled then State(None, false, None)
    else if o.pass == Full && m.settledCaughtUp then State(None, true, Some(o.maintenance))
    else if o.pass != CaughtUp then m.(candidate := None)
    else if !m.settledCaughtUp then State(None, true, m.revalidated)
    else if m.revalidated != Some(o.maintenance) then State(None, true, None)
    else if m.candidate.None? || o.number > m.candidate.value.number then
      m.(candidate := Some(Candidate(o.number, o.maintenance)))
    else m
  }

  predicate Reports(o: Observation, m: State) {
    && IsPass(o, CaughtUp) && m.settledCaughtUp && m.revalidated == Some(o.maintenance) && m.candidate.Some?
    && o.number > m.candidate.value.number && o.maintenance == m.candidate.value.maintenance
  }

  lemma ReportsIff(s: seq<Observation>, n: nat, m: State)
    requires Reflects(s, n, m) && n < |s|
    ensures Reports(s[n], m) <==> Ready(s, n)
  {
    if Ready(s, n) {
      var l :| RunSince(s, n, l) && s[l].maintenance == s[n].maintenance && s[l].number < s[n].number;
      var j :| j < l && RevalidatedSince(s, n, j);
      var i :| i < j && SettledSince(s, n, i);
    }
  }

  lemma NextSettled(s: seq<Observation>, n: nat, m: State)
    requires Reflects(s, n, m) && n < |s|
    ensures After(s[n], m).settledCaughtUp <==> AnySettled(s, n + 1)
  {
    SettledStep(s, n);
    if AnySettled(s, n) {
      var i :| SettledSince(s, n, i);
      assert SettledSince(s, n + 1, i) <==> (s[n].Seen? ==> s[n].settled);
    }
    if AnySettled(s, n + 1) {
      var i :| SettledSince(s, n + 1, i);
      assert i == n || SettledSince(s, n, i);
    }
    assert IsPass(s[n], CaughtUp) ==> SettledSince(s, n + 1, n);
  }

  lemma NextRevalidated(s: seq<Observation>, n: nat, m: State)
    requires Reflects(s, n, m) && n < |s|
    ensures var next := After(s[n], m);
            && (forall j :: RevalidatedSince(s, n + 1, j) ==> next.revalidated == Some(s[j].maintenance))
            && (next.revalidated.Some? ==> AnyRevalidated(s, n + 1))
  {
    var next := After(s[n], m);
    RevalidatedNow(s, n);
    forall j | RevalidatedSince(s, n + 1, j) ensures next.revalidated == Some(s[j].maintenance) {
      if j != n {
        RevalidatedStep(s, n, j);
        assert RevalidatedSince(s, n, j);
        var i :| i < j && SettledSince(s, n, i);
        assert m.settledCaughtUp;
      }
    }
    if m.revalidated.Some? {
      var j :| RevalidatedSince(s, n, j);
      RevalidatedStep(s, n, j);
    }
  }

  lemma RevalidatedIsSettled(s: seq<Observation>, n: nat, m: State, j: int)
    requires Reflects(s, n, m) && RevalidatedSince(s, n, j)
    ensures m.settledCaughtUp && m.revalidated == Some(s[j].maintenance)
  {
    var i :| i < j && SettledSince(s, n, i);
  }

  /** The candidate is the run that began with this observation, or the one it was. */
  lemma RunIsCandidate(s: seq<Observation>, n: nat, m: State, l: int)
    requires Reflects(s, n, m) && n < |s| && !Reports(s[n], m) && RunSince(s, n + 1, l)
    ensures After(s[n], m).candidate == Some(Candidate(s[l].number, s[l].maintenance))
  {
    RunNow(s, n);
    if l == n {
      var j :| RevalidatedSince(s, n, j) && s[j].maintenance == s[n].maintenance;
      RevalidatedIsSettled(s, n, m, j);
    } else {
      RunStep(s, n, l);
      assert RunSince(s, n, l);
      var j :| j < l && RevalidatedSince(s, n, j);
      RevalidatedIsSettled(s, n, m, j);
      assert s[l].maintenance == s[j].maintenance;
    }
  }

  lemma CandidateIsRun(s: seq<Observation>, n: nat, m: State)
    requires Reflects(s, n, m) && n < |s| && !Reports(s[n], m) && After(s[n], m).candidate.Some?
    ensures After(s[n], m).revalidated.Some? && AnyRun(s, n + 1)
  {
    var j :| RevalidatedSince(s, n, j);
    RevalidatedIsSettled(s, n, m, j);
    if m.candidate.Some? {
      var l :| RunSince(s, n, l);
      RunStep(s, n, l);
    } else {
      RunNow(s, n);
      assert RunSince(s, n + 1, n);
    }
  }

  lemma NextRun(s: seq<Observation>, n: nat, m: State)
    requires Reflects(s, n, m) && n < |s| && !Reports(s[n], m)
    ensures var next := After(s[n], m);
            && (forall l :: RunSince(s, n + 1, l) ==> next.candidate == Some(Candidate(s[l].number, s[l].maintenance)))
            && (next.candidate.Some? ==> next.revalidated.Some? && AnyRun(s, n + 1))
  {
    forall l | RunSince(s, n + 1, l) ensures After(s[n], m).candidate == Some(Candidate(s[l].number, s[l].maintenance)) {
      RunIsCandidate(s, n, m, l);
    }
    if After(s[n], m).candidate.Some? { CandidateIsRun(s, n, m); }
  }

  lemma NextBroken(s: seq<Observation>, n: nat, m: State)
    requires Reflects(s, n, m) && n < |s|
    ensures var next := After(s[n], m);
            && (next.revalidated.Some? && next.candidate.None? ==> BrokenBefore(s, n + 1))
            && (next.candidate.Some? ==> !BrokenBefore(s, n + 1))
  {
    BrokenStep(s, n);
    if m.revalidated.Some? { RevalidatedIsCaughtUp(s, n, m); }
  }

  lemma RevalidatedIsCaughtUp(s: seq<Observation>, n: nat, m: State)
    requires Reflects(s, n, m) && m.revalidated.Some?
    ensures m.settledCaughtUp
  {
    var j :| RevalidatedSince(s, n, j);
    RevalidatedIsSettled(s, n, m, j);
  }

  lemma AfterReflects(s: seq<Observation>, n: nat, m: State)
    requires Reflects(s, n, m) && n < |s| && !Reports(s[n], m)
    ensures Reflects(s, n + 1, After(s[n], m))
  {
    NextSettled(s, n, m);
    NextRevalidated(s, n, m);
    NextRun(s, n, m);
    NextBroken(s, n, m);
  }

  /** One answered probe's effect on the three variables; `None` when it completes the wait. */
  method Observe(o: Observation, m: State) returns (next: Option<State>)
    requires o.Seen?
    ensures next == if Reports(o, m) then None else Some(After(o, m))
  {
    var candidate, settledCaughtUp, revalidated := m.candidate, m.settledCaughtUp, m.revalidated;
    if !o.settled {
      candidate, settledCaughtUp, revalidated := None, false, None;
    } else if o.pass == Full && settledCaughtUp {
      candidate, revalidated := None, Some(o.maintenance);
    } else if o.pass == CaughtUp {
      if !settledCaughtUp {
        settledCaughtUp, candidate := true, None;
      } else if revalidated != Some(o.maintenance) {
        candidate, revalidated := None, None;
      } else {
        var current := Candidate(o.number, o.maintenance);
        if candidate.Some? && current.number > candidate.value.number && current.maintenance == candidate.value.maintenance {
          return None;
        }
        if candidate.None? || current.number > candidate.value.number {
          candidate := Some(current);
        }
      }
    } else {
      candidate := None;
    }
    next := Some(State(candidate, settledCaughtUp, revalidated));
  }

  /** The state after `n` probes, `None` once readiness has been reported. */
  ghost function RunTo(s: seq<Observation>, n: nat): Option<State>
    requires n <= |s|
  {
    if n == 0 then Some(State(None, false, None)) else
      var m := RunTo(s, n - 1);
      if m.None? || Reports(s[n - 1], m.value) then None else Some(After(s[n - 1], m.value))
  }

  lemma {:induction false} RunToReflects(s: seq<Observation>, n: nat)
    requires n <= |s| && RunTo(s, n).Some?
    ensures Reflects(s, n, RunTo(s, n).value)
  {
    if n > 0 {
      RunToReflects(s, n - 1);
      AfterReflects(s, n - 1, RunTo(s, n - 1).value);
    }
  }

  lemma ReportsWhenReady(s: seq<Observation>, n: nat)
    requires n < |s| && RunTo(s, n).Some?
    ensures Reports(s[n], RunTo(s, n).value) <==> Ready(s, n)
  {
    RunToReflects(s, n);
    ReportsIff(s, n, RunTo(s, n).value);
  }

  lemma {:induction false} RunsUntilReady(s: seq<Observation>, n: nat)
    requires n <= |s|
    ensures RunTo(s, n).Some? <==> forall k: nat | k < n :: !Ready(s, k)
  {
    if n > 0 {
      RunsUntilReady(s, n - 1);
      if RunTo(s, n - 1).Some? {
        ReportsWhenReady(s, n - 1);
      }
    }
  }

  lemma FirstReport(s: seq<Observation>, n: nat)
    requires n < |s| && RunTo(s, n).Some? && Reports(s[n], RunTo(s, n).value)
    ensures Ready(s, n) && forall k: nat | k < n :: !Ready(s, k)
  {
    RunsUntilReady(s, n);
    ReportsWhenReady(s, n);
  }

  lemma NeverReported(s: seq<Observation>)
    requires RunTo(s, |s|).Some?
    ensures forall k: nat :: !Ready(s, k)
  {
    RunsUntilReady(s, |s|);
  }

  /** The wait, over the probes its deadline allows: readiness is reported at the first probe that completes the pattern. */
  method WaitForReady(s: seq<Observation>) returns (at: Option<nat>)
    ensures at.None? <==> forall k: nat :: !Ready(s, k)
    ensures at.Some? ==> Ready(s, at.value) && forall k: nat | k < at.value :: !Ready(s, k)
  {
    var m := State(None, false, None);
    for n := 0 to |s|
      invariant RunTo(s, n) == Some(m)
    {
      if s[n].Seen? {
        var next := Observe(s[n], m);
        if next.None? {
          FirstReport(s, n);
          return Some(n);
        }
        m := next.value;
      }
    }
    NeverReported(s);
    return None;
  }

  /** Caught up at `i`, revalidated in full at `j`, caught up at `l` and, on a later pass, at `k`; nothing unsettled. */
  ghost predicate Pattern(s: seq<Observation>, i: int, j: int, l: int, k: int) {
    && 0 <= i < j < l < k < |s|
    && IsPass(s[i], CaughtUp) && IsPass(s[j], Full) && IsPass(s[l], CaughtUp) && IsPass(s[k], CaughtUp)
    && s[j].maintenance == s[l].maintenance == s[k].maintenance && s[l].number < s[k].number
    && (forall q | i <= q <= k && s[q].Seen? :: s[q].settled)
    && (forall q | l <= q <= k && s[q].Seen? :: s[q].pass == CaughtUp && s[q].maintenance == s[j].maintenance)
  }

  /** What a report means. */
  lemma ReadyMeans(s: seq<Observation>, k: nat)
    requires Ready(s, k)
    ensures exists i, j, l :: Pattern(s, i, j, l, k)
  {
    var l :| RunSince(s, k, l) && s[l].maintenance == s[k].maintenance && s[l].number < s[k].number;
    var j :| j < l && RevalidatedSince(s, k, j);
    var i :| i < j && SettledSince(s, k, i);
    assert s[l].maintenance == s[j].maintenance;
    assert Pattern(s, i, j, l, k);
  }
}
