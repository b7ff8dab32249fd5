/**
The soak harness's full-build collector: distinct ticks gathered from overlapping polls of a ring buffer,
and why a sampling it calls complete has missed, doubled and mixed in nothing.
*/
module SoakTicks {
  import opened Wrappers
  import opened IntSets

  /** The cold flag: true, false, or anything else. */
  datatype Flag = Cold | Warm | Unknown

  /** One published tick; an absent field is `None`. Times and durations are in nanoseconds. */
  datatype Row = Row(at: Option<int>, cold: Flag, full: bool, duration: Option<int>, period: Option<int>)

  datatype PolledRow = PolledRow(number: Option<int>, row: Row)

  /** One poll: the tick records it carried, if it carried any list of them. */
  type Diagnostic = Option<seq<PolledRow>>

  datatype Verdict = Verdict(samples: seq<int>, seqs: seq<int>, ticks: nat, cold: nat, outOfWindow: nat, unstamped: nat, complete: bool)

  type Records = map<int, Row>

  /******* Gathering *******/

  function WithRow(records: Records, p: PolledRow): Records {
    if p.number.Some? then records[p.number.value := p.row] else records
  }

  function WithRows(records: Records, rows: seq<PolledRow>): Records {
    if rows == [] then records else WithRow(WithRows(records, rows[..|rows| - 1]), rows[|rows| - 1])
  }

  /** Every numbered row of every poll, the latest for each number. */
  function Gathered(polls: seq<Diagnostic>): Records {
    if polls == [] then map[] else
      var front := Gathered(polls[..|polls| - 1]);
      if polls[|polls| - 1].Some? then WithRows(front, polls[|polls| - 1].value) else front
  }

  predicate AllCarried(polls: seq<Diagnostic>) { forall i | 0 <= i < |polls| :: polls[i].Some? }

  method Gather(polls: seq<Diagnostic>) returns (records: Records, missing: nat)
    ensures records == Gathered(polls) && (missing == 0 <==> AllCarried(polls))
  {
    records, missing := map[], 0;
    for i := 0 to |polls|
      invariant records == Gathered(polls[..i])
      invariant missing == 0 <==> forall k | 0 <= k < i :: polls[k].Some?
    {
      assert polls[..i + 1][..i] == polls[..i];
      if polls[i].None? {
        missing := missing + 1;
      } else {
        var rows := polls[i].value;
        for j := 0 to |rows|
          invariant records == WithRows(Gathered(polls[..i]), rows[..j])
        {
          assert rows[..j + 1][..j] == rows[..j];
          if rows[j].number.Some? {
            records := records[rows[j].number.value := rows[j].row];
          }
        }
        assert rows[..|rows|] == rows;
      }
    }
    assert polls[..|polls|] == polls;
  }

  /** Row `j` of poll `i` carries the number `k`. */
  ghost predicate CarriesAt(polls: seq<Diagnostic>, i: nat, j: nat, k: int) {
    i < |polls| && polls[i].Some? && j < |polls[i].value| && polls[i].value[j].number == Some(k)
  }

  /** `records` holds a row for exactly the numbers the polls carried, the last one each carried in poll order. */
  ghost predicate HoldsLatest(polls: seq<Diagnostic>, records: Records, k: int) {
    && (forall i: nat, j: nat | CarriesAt(polls, i, j, k) :: k in records)
    && (k in records ==> exists i: nat, j: nat ::
          CarriesAt(polls, i, j, k) && records[k] == polls[i].value[j].row && IsLatest(polls, i, j, k))
  }

  ghost predicate IsLatest(polls: seq<Diagnostic>, i: nat, j: nat, k: int) {
    forall a: nat, b: nat | CarriesAt(polls, a, b, k) :: a < i || (a == i && b <= j)
  }

  lemma {:induction false} GatheredIs(polls: seq<Diagnostic>, k: int)
    ensures HoldsLatest(polls, Gathered(polls), k)
  {
    if polls != [] {
      var n := |polls| - 1;
      var front := polls[..n];
      GatheredIs(front, k);
      forall i: nat, j: nat | i < n ensures CarriesAt(polls, i, j, k) <==> CarriesAt(front, i, j, k) {}
      if polls[n].Some? {
        RowsAre(Gathered(front), polls[n].value, k);
        LatestInLast(polls, front, k);
      } else {
        LatestBefore(polls, front, Gathered(front), k);
      }
    }
  }

  lemma LatestBefore(polls: seq<Diagnostic>, front: seq<Diagnostic>, records: Records, k: int)
    requires polls != [] && front == polls[..|polls| - 1] && HoldsLatest(front, records, k)
    requires forall j: nat :: !CarriesAt(polls, |front|, j, k)
    ensures HoldsLatest(polls, records, k)
  {
    forall i: nat, j: nat | CarriesAt(polls, i, j, k) ensures k in records {
      CarriedBefore(polls, front, i, j, k);
    }
    if k in records {
      var i: nat, j: nat :| CarriesAt(front, i, j, k) && records[k] == front[i].value[j].row && IsLatest(front, i, j, k);
      CarriedBefore(polls, front, i, j, k);
      forall a: nat, b: nat | CarriesAt(polls, a, b, k) ensures a < i || (a == i && b <= j) {
        CarriedBefore(polls, front, a, b, k);
      }
    }
  }

  lemma CarriedBefore(polls: seq<Diagnostic>, front: seq<Diagnostic>, i: nat, j: nat, k: int)
    requires polls != [] && front == polls[..|polls| - 1] && !CarriesAt(polls, |front|, j, k)
    ensures CarriesAt(polls, i, j, k) <==> CarriesAt(front, i, j, k)
  {
    if i < |front| { assert front[i] == polls[i]; }
  }

  lemma LatestInLast(polls: seq<Diagnostic>, front: seq<Diagnostic>, k: int)
    requires polls != [] && front == polls[..|polls| - 1] && polls[|polls| - 1].Some?
    requires HoldsLatest(front, Gathered(front), k)
    requires LastOf(Gathered(front), polls[|polls| - 1].value, WithRows(Gathered(front), polls[|polls| - 1].value), k)
    ensures HoldsLatest(polls, Gathered(polls), k)
  {
    var n, rows := |front|, polls[|polls| - 1].value;
    var records := WithRows(Gathered(front), rows);
    if exists j: nat :: j < |rows| && rows[j].number == Some(k) {
      var j: nat :| IsLastAt(rows, j, k) && k in records && records[k] == rows[j].row;
      assert CarriesAt(polls, n, j, k) && IsLatest(polls, n, j, k);
    } else {
      assert forall j: nat :: !CarriesAt(polls, n, j, k);
      LatestBefore(polls, front, records, k);
    }
  }

  ghost predicate IsLastAt(rows: seq<PolledRow>, j: nat, k: int) {
    j < |rows| && rows[j].number == Some(k) && forall q | j < q < |rows| :: rows[q].number != Some(k)
  }

  /** Adding a poll's rows: a number it carries takes its last row, another one keeps what it had. */
  ghost predicate LastOf(was: Records, rows: seq<PolledRow>, records: Records, k: int) {
    if exists j: nat :: j < |rows| && rows[j].number == Some(k) then
      exists j: nat :: IsLastAt(rows, j, k) && k in records && records[k] == rows[j].row
    else (k in records <==> k in was) && (k in was ==> records[k] == was[k])
  }

  lemma {:induction false} RowsAre(was: Records, rows: seq<PolledRow>, k: int)
    ensures LastOf(was, rows, WithRows(was, rows), k)
  {
    if rows != [] {
      var n := |rows| - 1;
      RowsAre(was, rows[..n], k);
      OneMoreRow(was, rows[..n], WithRows(was, rows[..n]), rows[n], k);
      assert rows[..n] + [rows[n]] == rows;
    }
  }

  lemma OneMoreRow(was: Records, front: seq<PolledRow>, records: Records, p: PolledRow, k: int)
    requires LastOf(was, front, records, k)
    ensures LastOf(was, front + [p], WithRow(records, p), k)
  {
    var rows := front + [p];
    if p.number == Some(k) {
      assert IsLastAt(rows, |front|, k);
    } else if exists j: nat :: j < |front| && front[j].number == Some(k) {
      var j: nat :| IsLastAt(front, j, k) && k in records && records[k] == front[j].row;
      assert IsLastAt(rows, j, k);
    } else {
      assert forall j: nat | j < |rows| :: rows[j].number != Some(k);
    }
  }

  /******* The true log *******/

  /** Consecutive numbers, and publication times that do not decrease along them. */
  ghost predicate TickLog(log: Records) {
    && (forall a, b, k | a in log && b in log && a <= k <= b :: k in log)
    && (forall a, b | a in log && b in log && a <= b && log[a].at.Some? && log[b].at.Some? :: log[a].at.value <= log[b].at.value)
  }

  /** The polls show rows of the log, each as it is. */
  ghost predicate Shows(polls: seq<Diagnostic>, log: Records) {
    forall i, j | 0 <= i < |polls| && polls[i].Some? && 0 <= j < |polls[i].value| && polls[i].value[j].number.Some? ::
      polls[i].value[j].number.value in log && log[polls[i].value[j].number.value] == polls[i].value[j].row
  }

  ghost predicate PartOf(records: Records, log: Records) { forall k | k in records :: k in log && records[k] == log[k] }

  lemma {:induction false} GatheredIsPart(polls: seq<Diagnostic>, log: Records)
    requires Shows(polls, log)
    ensures PartOf(Gathered(polls), log)
  {
    if polls != [] {
      var front, last := polls[..|polls| - 1], polls[|polls| - 1];
      assert Shows(front, log) by {
        assert forall i | 0 <= i < |front| :: front[i] == polls[i];
      }
      GatheredIsPart(front, log);
      if last.Some? {
        RowsArePart(Gathered(front), last.value, log);
      }
    }
  }

  lemma {:induction false} RowsArePart(records: Records, rows: seq<PolledRow>, log: Records)
    requires PartOf(records, log)
    requires forall j | 0 <= j < |rows| && rows[j].number.Some? :: rows[j].number.value in log && log[rows[j].number.value] == rows[j].row
    ensures PartOf(WithRows(records, rows), log)
  {
    if rows != [] {
      RowsArePart(records, rows[..|rows| - 1], log);
    }
  }

  /******* Classifying *******/

  predicate Inside(r: Row, start: int, end: int) { r.at.Some? && start <= r.at.value <= end }

  predicate WarmFull(r: Row, start: int, end: int) { Inside(r, start, end) && r.cold == Warm && r.full }

  /** No publication time; or a record of the window that is not cold and lacks its cold flag, or its duration. */
  predicate Unstamped(r: Row, start: int, end: int) {
    r.at.None? || (Inside(r, start, end) && (r.cold == Unknown || (WarmFull(r, start, end) && r.duration.None?)))
  }

  function Keep(keys: seq<int>, records: Records, p: Row -> bool): seq<int> {
    if keys == [] then [] else
      var k := keys[|keys| - 1];
      Keep(keys[..|keys| - 1], records, p) + if k in records && p(records[k]) then [k] else []
  }

  function InsideOf(start: int, end: int): Row -> bool { (r: Row) => Inside(r, start, end) }
  function SampledOf(start: int, end: int): Row -> bool { (r: Row) => WarmFull(r, start, end) && r.duration.Some? }
  function UnstampedOf(start: int, end: int): Row -> bool { (r: Row) => Unstamped(r, start, end) }
  function ColdOf(): Row -> bool { (r: Row) => r.at.Some? && r.cold == Cold }
  function OutsideOf(start: int, end: int): Row -> bool {
    (r: Row) => r.at.Some? && r.cold != Cold && !Inside(r, start, end)
  }

  lemma {:induction false} KeepIs(keys: seq<int>, records: Records, p: Row -> bool)
    requires Ascending(keys)
    ensures Ascending(Keep(keys, records, p))
    ensures forall k :: k in Keep(keys, records, p) <==> k in keys && k in records && p(records[k])
  {
    if keys != [] {
      var front, last := keys[..|keys| - 1], keys[|keys| - 1];
      KeepIs(front, records, p);
      assert keys == front + [last];
      var kept := Keep(front, records, p);
      forall i | 0 <= i < |kept| ensures kept[i] < last {
        assert kept[i] in kept && kept[i] in front;
      }
    }
  }

  method Classify(records: Records, keys: seq<int>, start: int, end: int)
    returns (windowSeqs: seq<int>, samples: seq<int>, seqs: seq<int>, cold: nat, outOfWindow: nat, unstamped: nat)
    requires forall i | 0 <= i < |keys| :: keys[i] in records
    ensures windowSeqs == Keep(keys, records, InsideOf(start, end))
    ensures seqs == Keep(keys, records, SampledOf(start, end)) && |samples| == |seqs|
    ensures forall i | 0 <= i < |seqs| :: seqs[i] in records && records[seqs[i]].duration == Some(samples[i])
    ensures cold == |Keep(keys, records, ColdOf())| && outOfWindow == |Keep(keys, records, OutsideOf(start, end))|
    ensures unstamped == |Keep(keys, records, UnstampedOf(start, end))|
  {
    windowSeqs, samples, seqs, cold, outOfWindow, unstamped := [], [], [], 0, 0, 0;
    for i := 0 to |keys|
      invariant windowSeqs == Keep(keys[..i], records, InsideOf(start, end))
      invariant seqs == Keep(keys[..i], records, SampledOf(start, end)) && |samples| == |seqs|
      invariant forall q | 0 <= q < |seqs| :: seqs[q] in records && records[seqs[q]].duration == Some(samples[q])
      invariant cold == |Keep(keys[..i], records, ColdOf())|
      invariant outOfWindow == |Keep(keys[..i], records, OutsideOf(start, end))|
      invariant unstamped == |Keep(keys[..i], records, UnstampedOf(start, end))|
    {
      assert keys[..i + 1][..i] == keys[..i];
      var row := records[keys[i]];
      if row.at.None? {
        unstamped := unstamped + 1;
        continue;
      }
      var inside := start <= row.at.value <= end;
      if inside {
        windowSeqs := windowSeqs + [keys[i]];
      }
      if row.cold == Cold {
        cold := cold + 1;
        continue;
      }
      if !inside {
        outOfWindow := outOfWindow + 1;
        continue;
      }
      if row.cold != Warm {
        unstamped := unstamped + 1;
        continue;
      }
      if !row.full {
        continue;
      }
      if row.duration.None? {
        unstamped := unstamped + 1;
        continue;
      }
      samples, seqs := samples + [row.duration.value], seqs + [keys[i]];
    }
    assert keys[..|keys|] == keys;
  }

  /******* Coverage *******/

  /** The first window record's predecessor was published before the window. */
  predicate HeadCovered(records: Records, first: int, start: int) {
    first - 1 in records && records[first - 1].at.Some? && records[first - 1].at.value < start
  }

  /** A zero publication time reads as absent here. */
  function Tail(records: Records, last: int, start: int, edge: int): int
    requires last in records && records[last].at.Some?
  {
    edge - if records[last].at.value != 0 then records[last].at.value else start
  }

  ghost predicate TailCovered(records: Records, windowSeqs: seq<int>, tail: int) {
    exists j :: 0 <= j < |windowSeqs| && windowSeqs[j] in records &&
      records[windowSeqs[j]].period.Some? && tail <= records[windowSeqs[j]].period.value
  }

  method LongestPeriod(records: Records, windowSeqs: seq<int>) returns (longest: Option<int>)
    requires forall i | 0 <= i < |windowSeqs| :: windowSeqs[i] in records
    ensures forall tail :: longest.Some? && tail <= longest.value <==> TailCovered(records, windowSeqs, tail)
  {
    longest := None;
    for i := 0 to |windowSeqs|
      invariant longest.Some? ==> exists j :: 0 <= j < i && windowSeqs[j] in records && records[windowSeqs[j]].period == longest
      invariant forall j | 0 <= j < i && windowSeqs[j] in records && records[windowSeqs[j]].period.Some? ::
                  longest.Some? && records[windowSeqs[j]].period.value <= longest.value
    {
      var period := records[windowSeqs[i]].period;
      if period.Some? && (longest.None? || longest.value < period.value) {
        longest := period;
      }
    }
  }

  /** The last poll, or the end of the window when no poll times are given. */
  ghost predicate IsEdge(polledAt: seq<int>, end: int, edge: int) {
    if polledAt == [] then edge == end else edge in polledAt && forall t | t in polledAt :: t <= edge
  }

  method Edge(polledAt: seq<int>, end: int) returns (edge: int)
    ensures IsEdge(polledAt, end, edge)
  {
    if polledAt == [] {
      return end;
    }
    edge := polledAt[0];
    for i := 1 to |polledAt|
      invariant edge in polledAt && forall j | 0 <= j < i :: polledAt[j] <= edge
    {
      if polledAt[i] > edge {
        edge := polledAt[i];
      }
    }
  }

  /** Distinct numbers that span no more than their count leave no gap. */
  lemma {:induction false} NoGaps(s: seq<int>, k: int)
    requires Ascending(s) && s != [] && s[|s| - 1] - s[0] + 1 == |s| && s[0] <= k <= s[|s| - 1]
    ensures k in s
  {
    AtLeast(s, k - s[0]);
    AtMost(s, k - s[0]);
    assert s[k - s[0]] == k;
  }

  lemma {:induction false} AtLeast(s: seq<int>, i: nat)
    requires Ascending(s) && i < |s|
    ensures s[0] + i <= s[i]
  {
    if i > 0 {
      AtLeast(s, i - 1);
    }
  }

  lemma {:induction false} AtMost(s: seq<int>, i: nat)
    requires Ascending(s) && i < |s|
    ensures s[i] + (|s| - 1 - i) <= s[|s| - 1]
    decreases |s| - i
  {
    if i < |s| - 1 {
      AtMost(s, i + 1);
    }
  }

  /******* The collector *******/

  /**
  Nothing missed, doubled or cold up to the last window tick; and what comes later is within the publish period
  of one of the window's ticks up to that one from the edge.
  */
  ghost predicate Lossless(log: Records, start: int, end: int, edge: int, v: Verdict, last: int) {
    && Ascending(v.seqs) && |v.samples| == |v.seqs|
    && (forall i | 0 <= i < |v.seqs| :: v.seqs[i] in log && log[v.seqs[i]].duration == Some(v.samples[i]))
    && (forall k :: k in v.seqs <==> k in log && k <= last && WarmFull(log[k], start, end))
    && (forall k | k in log && WarmFull(log[k], start, end) && k !in v.seqs ::
          exists q :: q <= last && Reaches(log, q, start, end, edge, log[k].at.value))
  }

  /** Tick `q` of the window has a period that reaches from `at` to the edge. */
  ghost predicate Reaches(log: Records, q: int, start: int, end: int, edge: int, at: int) {
    q in log && Inside(log[q], start, end) && log[q].period.Some? && edge - log[q].period.value <= at
  }

  ghost predicate Covered(records: Records, windowSeqs: seq<int>, start: int, edge: int) {
    && windowSeqs != [] && (forall i | 0 <= i < |windowSeqs| :: windowSeqs[i] in records && records[windowSeqs[i]].at.Some?)
    && windowSeqs[|windowSeqs| - 1] - windowSeqs[0] + 1 == |windowSeqs|
    && HeadCovered(records, windowSeqs[0], start)
    && TailCovered(records, windowSeqs, Tail(records, windowSeqs[|windowSeqs| - 1], start, edge))
  }

  /** Every tick of the window up to its last sampled number was polled. */
  lemma WindowWasPolled(log: Records, records: Records, w: seq<int>, start: int, end: int, edge: int, k: int)
    requires TickLog(log) && PartOf(records, log) && Ascending(w) && Covered(records, w, start, edge)
    requires k in log && Inside(log[k], start, end) && k <= w[|w| - 1]
    ensures k in records
  {
    NoGaps(w, k);
  }

  lemma LaterIsNearTheEdge(log: Records, records: Records, w: seq<int>, start: int, end: int, edge: int, k: int)
    requires TickLog(log) && PartOf(records, log) && Ascending(w) && Covered(records, w, start, edge)
    requires forall j | 0 <= j < |w| :: w[j] in records && Inside(records[w[j]], start, end)
    requires k in log && log[k].at.Some? && w[|w| - 1] < k && start <= records[w[|w| - 1]].at.value
    ensures exists q :: q <= w[|w| - 1] && Reaches(log, q, start, end, edge, log[k].at.value)
  {
    var last := w[|w| - 1];
    assert last in w;
    var j :| 0 <= j < |w| && w[j] in records && records[w[j]].period.Some? && Tail(records, last, start, edge) <= records[w[j]].period.value;
    var q := w[j];
    assert log[last].at.value <= log[k].at.value;
    assert Reaches(log, q, start, end, edge, log[k].at.value);
  }

  /** With nothing unstamped, the sampled numbers are the polled warm full ones. */
  lemma SampledIff(records: Records, keys: seq<int>, start: int, end: int)
    requires Ascending(keys) && forall q :: q in keys <==> q in records
    requires Keep(keys, records, UnstampedOf(start, end)) == []
    ensures forall k :: k in Keep(keys, records, SampledOf(start, end)) <==> k in records && WarmFull(records[k], start, end)
    ensures forall k :: k in Keep(keys, records, InsideOf(start, end)) <==> k in records && Inside(records[k], start, end)
  {
    KeepIs(keys, records, InsideOf(start, end));
    KeepIs(keys, records, SampledOf(start, end));
    KeepIs(keys, records, UnstampedOf(start, end));
    forall k | k in records ensures !Unstamped(records[k], start, end) {
      assert k !in Keep(keys, records, UnstampedOf(start, end));
      assert !UnstampedOf(start, end)(records[k]);
    }
  }

  lemma LosslessWhenComplete(log: Records, records: Records, w: seq<int>, start: int, end: int, edge: int, v: Verdict)
    requires TickLog(log) && PartOf(records, log) && Ascending(w) && Covered(records, w, start, edge)
    requires forall k :: k in w <==> k in records && Inside(records[k], start, end)
    requires forall k :: k in v.seqs <==> k in records && WarmFull(records[k], start, end)
    requires Ascending(v.seqs) && |v.samples| == |v.seqs|
    requires forall i | 0 <= i < |v.seqs| :: v.seqs[i] in records && records[v.seqs[i]].duration == Some(v.samples[i])
    ensures Lossless(log, start, end, edge, v, w[|w| - 1])
  {
    var last := w[|w| - 1];
    assert last in w;
    forall k | k in log && k <= last && WarmFull(log[k], start, end) ensures k in v.seqs {
      WindowWasPolled(log, records, w, start, end, edge, k);
    }
    forall k | k in v.seqs ensures k in log && k <= last && WarmFull(log[k], start, end) {
      var i :| 0 <= i < |w| && w[i] == k;
    }
    forall k | k in log && WarmFull(log[k], start, end) && k !in v.seqs
      ensures exists q :: q <= last && Reaches(log, q, start, end, edge, log[k].at.value)
    {
      assert forall j | 0 <= j < |w| :: w[j] in w;
      LaterIsNearTheEdge(log, records, w, start, end, edge, k);
    }
  }

  ghost predicate SampledFrom(records: Records, v: Verdict) {
    |v.samples| == |v.seqs| &&
    forall i | 0 <= i < |v.seqs| :: v.seqs[i] in records && records[v.seqs[i]].duration == Some(v.samples[i])
  }

  /** The collector's result, in terms of everything its polls gathered. */
  ghost predicate Collected(records: Records, carried: bool, keys: seq<int>, start: int, end: int, edge: int, v: Verdict) {
    && Ascending(keys) && (forall k :: k in keys <==> k in records)
    && v.seqs == Keep(keys, records, SampledOf(start, end)) && SampledFrom(records, v)
    && v.ticks == |Keep(keys, records, InsideOf(start, end))|
    && v.cold == |Keep(keys, records, ColdOf())| && v.outOfWindow == |Keep(keys, records, OutsideOf(start, end))|
    && v.unstamped == |Keep(keys, records, UnstampedOf(start, end))|
    && (v.complete <==> carried && v.unstamped == 0 && Covered(records, Keep(keys, records, InsideOf(start, end)), start, edge))
  }

  /** A sampling that says it is complete is lossless, for any true log the polls have shown parts of. */
  lemma CompleteIsLossless(polls: seq<Diagnostic>, log: Records, keys: seq<int>, start: int, end: int, edge: int, v: Verdict)
    requires Collected(Gathered(polls), AllCarried(polls), keys, start, end, edge, v) && v.complete
    requires TickLog(log) && Shows(polls, log)
    ensures exists last :: last in log && Inside(log[last], start, end) && Lossless(log, start, end, edge, v, last)
  {
    var records := Gathered(polls);
    var w := Keep(keys, records, InsideOf(start, end));
    GatheredIsPart(polls, log);
    SampledIff(records, keys, start, end);
    KeepIs(keys, records, SampledOf(start, end));
    KeepIs(keys, records, InsideOf(start, end));
    LosslessWhenComplete(log, records, w, start, end, edge, v);
    assert w[|w| - 1] in w;
  }

  /******* The verdict in the records' own fields *******/

  ghost function InWindow(records: Records, start: int, end: int): set<int> {
    set k | k in records && records[k].at.Some? && start <= records[k].at.value <= end
  }

  ghost function ColdOnes(records: Records): set<int> { set k | k in records && records[k].at.Some? && records[k].cold == Cold }

  ghost function Outside(records: Records, start: int, end: int): set<int> {
    set k | k in records && records[k].at.Some? && records[k].cold != Cold && (records[k].at.value < start || end < records[k].at.value)
  }

  /** Without a publication time; or in the window, neither cold nor warm, or a warm full build without a duration. */
  ghost function Lacking(records: Records, start: int, end: int): set<int> {
    set k | k in records
      && (records[k].at.None? || (start <= records[k].at.value <= end && records[k].cold != Cold
          && (records[k].cold == Unknown || (records[k].full && records[k].duration.None?))))
  }

  /** Warm full builds of the window with a duration. */
  ghost predicate IsSample(records: Records, start: int, end: int, k: int) {
    k in records && records[k].at.Some? && start <= records[k].at.value <= end && records[k].cold == Warm && records[k].full
    && records[k].duration.Some?
  }

  /**
  The window's ticks are the numbers from `first` to `last`, all of them; the one before was published ahead of the
  window; and from the last one's publication to the edge is no longer than some period of theirs.
  */
  ghost predicate CoveredFrom(records: Records, start: int, end: int, edge: int, first: int, last: int) {
    && (forall k :: k in InWindow(records, start, end) <==> first <= k <= last) && last in InWindow(records, start, end)
    && first - 1 in records && records[first - 1].at.Some? && records[first - 1].at.value < start
    && exists q :: q in InWindow(records, start, end) && records[q].period.Some?
         && edge - (if records[last].at.value == 0 then start else records[last].at.value) <= records[q].period.value
  }

  /** The verdict's counts and samples, and when it is complete. */
  lemma VerdictIs(records: Records, carried: bool, keys: seq<int>, start: int, end: int, edge: int, v: Verdict)
    requires Collected(records, carried, keys, start, end, edge, v)
    ensures v.ticks == |InWindow(records, start, end)| && v.cold == |ColdOnes(records)|
    ensures v.outOfWindow == |Outside(records, start, end)| && v.unstamped == |Lacking(records, start, end)|
    ensures Ascending(v.seqs) && (forall k :: k in v.seqs <==> IsSample(records, start, end, k)) && SampledFrom(records, v)
    ensures v.complete <==> carried && Lacking(records, start, end) == {}
                            && exists first, last :: CoveredFrom(records, start, end, edge, first, last)
  {
    KeepIs(keys, records, InsideOf(start, end));
    KeepIs(keys, records, SampledOf(start, end));
    KeepIs(keys, records, UnstampedOf(start, end));
    KeepIs(keys, records, ColdOf());
    KeepIs(keys, records, OutsideOf(start, end));
    CountOf(Keep(keys, records, InsideOf(start, end)), InWindow(records, start, end));
    CountOf(Keep(keys, records, UnstampedOf(start, end)), Lacking(records, start, end));
    CountOf(Keep(keys, records, ColdOf()), ColdOnes(records));
    CountOf(Keep(keys, records, OutsideOf(start, end)), Outside(records, start, end));
    CoveredIff(records, Keep(keys, records, InsideOf(start, end)), start, end, edge);
  }

  /** The last of an ascending list is the greatest, and not among the others. */
  lemma LastApart(s: seq<int>)
    requires Ascending(s) && s != []
    ensures forall k :: k in s[..|s| - 1] <==> k in s && k != s[|s| - 1]
    ensures forall k | k in s :: k <= s[|s| - 1]
  {
    assert s == s[..|s| - 1] + [s[|s| - 1]];
  }

  /** A strictly ascending list is as long as the set of what it lists. */
  lemma {:induction false} CountOf(s: seq<int>, ks: set<int>)
    requires Ascending(s) && forall k :: k in s <==> k in ks
    ensures |s| == |ks|
  {
    if s == [] {
      forall k ensures k !in ks { assert k !in s; }
      assert ks == {};
    } else {
      var front, last := s[..|s| - 1], s[|s| - 1];
      LastApart(s);
      CountOf(front, ks - {last});
    }
  }

  lemma CoveredIff(records: Records, w: seq<int>, start: int, end: int, edge: int)
    requires Ascending(w) && forall k :: k in w <==> k in InWindow(records, start, end)
    ensures Covered(records, w, start, edge) <==> exists first, last :: CoveredFrom(records, start, end, edge, first, last)
  {
    assert forall i | 0 <= i < |w| :: w[i] in w;
    if Covered(records, w, start, edge) {
      CoveredIsFrom(records, w, start, end, edge);
    }
    if exists first, last :: CoveredFrom(records, start, end, edge, first, last) {
      var first, last :| CoveredFrom(records, start, end, edge, first, last);
      FromIsCovered(records, w, start, end, edge, first, last);
    }
  }

  lemma CoveredIsFrom(records: Records, w: seq<int>, start: int, end: int, edge: int)
    requires Ascending(w) && (forall k :: k in w <==> k in InWindow(records, start, end)) && Covered(records, w, start, edge)
    ensures CoveredFrom(records, start, end, edge, w[0], w[|w| - 1])
  {
    var first, last := w[0], w[|w| - 1];
    assert first in w && last in w;
    forall k ensures k in InWindow(records, start, end) <==> first <= k <= last {
      if first <= k <= last { NoGaps(w, k); }
      if k in w { var i :| 0 <= i < |w| && w[i] == k; }
    }
    var j :| 0 <= j < |w| && w[j] in records && records[w[j]].period.Some? && Tail(records, last, start, edge) <= records[w[j]].period.value;
    assert w[j] in w;
  }

  lemma FromIsCovered(records: Records, w: seq<int>, start: int, end: int, edge: int, first: int, last: int)
    requires Ascending(w) && (forall k :: k in w <==> k in InWindow(records, start, end))
    requires CoveredFrom(records, start, end, edge, first, last)
    ensures Covered(records, w, start, edge)
  {
    assert first in w && last in w;
    assert forall i | 0 <= i < |w| :: w[i] in w;
    assert w[0] == first && w[|w| - 1] == last;
    SpanIs(w, first, last);
    var q :| q in InWindow(records, start, end) && records[q].period.Some?
             && edge - (if records[last].at.value == 0 then start else records[last].at.value) <= records[q].period.value;
    assert q in w;
  }

  lemma {:induction false} SpanIs(w: seq<int>, first: int, last: int)
    requires Ascending(w) && first <= last && forall k :: k in w <==> first <= k <= last
    ensures |w| == last - first + 1
    decreases |w|
  {
    assert first in w && last in w;
    LastApart(w);
    var front, end := w[..|w| - 1], w[|w| - 1];
    assert end in w;
    assert end == last;
    forall k ensures k in front <==> first <= k <= last - 1 {
      assert k in w <==> first <= k <= last;
    }
    if first < last {
      SpanIs(front, first, last - 1);
    } else {
      NothingListed(front);
    }
  }

  lemma NothingListed(s: seq<int>)
    ensures s == [] || exists k :: k in s
  {
    if s != [] {
      var x := s[0];
      assert x in s;
    }
  }

  method CoverageProblems(records: Records, windowSeqs: seq<int>, start: int, edge: int) returns (problems: nat)
    requires forall i | 0 <= i < |windowSeqs| :: windowSeqs[i] in records && records[windowSeqs[i]].at.Some?
    ensures problems == 0 <==> Covered(records, windowSeqs, start, edge)
  {
    problems := 0;
    if windowSeqs == [] {
      return 1;
    }
    var first, last := windowSeqs[0], windowSeqs[|windowSeqs| - 1];
    if last - first + 1 != |windowSeqs| {
      problems := problems + 1;
    }
    if !HeadCovered(records, first, start) {
      problems := problems + 1;
    }
    var longest := LongestPeriod(records, windowSeqs);
    var tail := Tail(records, last, start, edge);
    if longest.None? || tail > longest.value {
      problems := problems + 1;
    }
  }

  /** Gather, classify in tick order, and look for every way the evidence may be short. */
  method CollectBuilds(polls: seq<Diagnostic>, start: int, end: int, polledAt: seq<int>)
    returns (v: Verdict, ghost edge: int, ghost keys: seq<int>)
    ensures IsEdge(polledAt, end, edge)
    ensures Collected(Gathered(polls), AllCarried(polls), keys, start, end, edge, v)
  {
    var records, missing := Gather(polls);
    var sorted := Sorted(records.Keys);
    keys := sorted;
    assert forall i | 0 <= i < |sorted| :: sorted[i] in sorted;
    var windowSeqs, samples, seqs, cold, outOfWindow, unstamped := Classify(records, sorted, start, end);
    var ended := Edge(polledAt, end);
    edge := ended;
    KeepIs(keys, records, InsideOf(start, end));
    forall i | 0 <= i < |windowSeqs| ensures windowSeqs[i] in records && records[windowSeqs[i]].at.Some? {
      assert windowSeqs[i] in windowSeqs;
    }
    var problems := CoverageProblems(records, windowSeqs, start, ended);
    if missing != 0 {
      problems := problems + 1;
    }
    if unstamped != 0 {
      problems := problems + 1;
    }
    v := Verdict(samples, seqs, |windowSeqs|, cold, outOfWindow, unstamped, problems == 0);
  }

  /** The gathered numbers in order, and the edge: each is one. */
  ghost predicate ListsTicks(polls: seq<Diagnostic>, keys: seq<int>) {
    Ascending(keys) && forall k :: k in keys <==> k in Gathered(polls)
  }

  /** The collector's verdict on what its polls gathered. */
  method WarmFullBuilds(polls: seq<Diagnostic>, start: int, end: int, polledAt: seq<int>) returns (v: Verdict)
    ensures exists keys, edge :: ListsTicks(polls, keys) && IsEdge(polledAt, end, edge)
    ensures forall keys, edge | ListsTicks(polls, keys) && IsEdge(polledAt, end, edge) ::
              Collected(Gathered(polls), AllCarried(polls), keys, start, end, edge, v)
  {
    ghost var edge, keys;
    v, edge, keys := CollectBuilds(polls, start, end, polledAt);
    OneVerdict(polls, start, end, polledAt, edge, keys, v);
  }

  lemma OneVerdict(polls: seq<Diagnostic>, start: int, end: int, polledAt: seq<int>, edge: int, keys: seq<int>, v: Verdict)
    requires IsEdge(polledAt, end, edge) && Collected(Gathered(polls), AllCarried(polls), keys, start, end, edge, v)
    ensures ListsTicks(polls, keys)
    ensures forall other, at | ListsTicks(polls, other) && IsEdge(polledAt, end, at) ::
              Collected(Gathered(polls), AllCarried(polls), other, start, end, at, v)
  {
    forall other, at | ListsTicks(polls, other) && IsEdge(polledAt, end, at)
      ensures Collected(Gathered(polls), AllCarried(polls), other, start, end, at, v)
    {
      OneListing(other, keys);
      assert at == edge;
    }
  }
}
