/**
The residual-derivation obligations: one durable file per completion that published short of a derivable
input, one ingest attempt that answers all of them, discharge of exactly what it covered, and the backoff
that paces its failures.
*/
module CompletionObligations {
  import opened Wrappers
  import opened CompletionRounds

  const RETRY_BASE_S := 60
  const RETRY_MAX_S := 3600

  /** An obligation document as it reads: a file that cannot be parsed says nothing and has never failed. */
  datatype Document = Document(through: Option<nat>, failures: nat, retryAt: Option<int>)

  const UNREADABLE := Document(None, 0, None)

  /** What the one ingest of an attempt did. */
  datatype IngestResult =
    | Raised
    | Returned(ran: bool, error: bool, blocked: bool, contended: bool, applied: Option<nat>)

  datatype Disposition = NoneOwed | Discharged | Blocked | Failed | Backoff

  /******* Backoff *******/

  function Pow2(n: nat): (p: nat)
    ensures p >= 1
  {
    if n == 0 then 1 else 2 * Pow2(n - 1)
  }

  function Min(a: int, b: int): int { if a < b then a else b }

  /** The wait after the `failures`-th failure in a row. */
  function Interval(failures: nat): (s: int)
    requires failures >= 1
    ensures RETRY_BASE_S <= s <= RETRY_MAX_S
  {
    Min(RETRY_MAX_S, RETRY_BASE_S * Pow2(Min(failures - 1, 16)))
  }

  lemma {:induction false} Pow2Grows(m: nat, n: nat)
    requires m <= n
    ensures Pow2(m) <= Pow2(n)
  {
    if m < n { Pow2Grows(m, n - 1); }
  }

  /** Each further failure doubles the wait, up to the longest one. */
  lemma IntervalDoubles(failures: nat)
    requires failures >= 1
    ensures Interval(failures + 1) == Min(RETRY_MAX_S, 2 * Interval(failures))
    ensures Interval(1) == RETRY_BASE_S
  {
    assert Pow2(6) == 64;
    if failures > 6 {
      Pow2Grows(6, Min(failures - 1, 16));
      Pow2Grows(6, Min(failures, 16));
    }
  }

  /** Whether an attempt is owed now: a retry instant past the longest wait predates a clock step. */
  predicate Due(d: Document, now: int) {
    d.retryAt.None? || d.retryAt.value <= now || d.retryAt.value - now > RETRY_MAX_S
  }

  /** The retry instant lies ahead, and no further than the longest wait. */
  ghost predicate WaitsAt(d: Document, now: int) { d.retryAt.Some? && now < d.retryAt.value <= now + RETRY_MAX_S }

  /** Whatever the clock reads, and however it stepped, nothing waits longer than the longest wait. */
  lemma NeverStalls(d: Document, now: int)
    ensures Due(d, now) || (d.retryAt.value - now <= RETRY_MAX_S && forall later | later >= now + RETRY_MAX_S :: Due(d, later))
  {}

  function RecordFailure(d: Document, now: int): Document {
    d.(failures := d.failures + 1, retryAt := Some(now + Interval(d.failures + 1)))
  }

  /** `d` is what was `read` with one failure more, counted and waited for. */
  ghost predicate OneFailureOn(read: Document, d: Document, now: int) {
    d.through == read.through && d.failures == read.failures + 1 && d.retryAt == Some(now + Interval(d.failures))
  }

  /** The documents of `failed` as they were read, one failure further. */
  function Failures(read: map<nat, Document>, failed: set<nat>, now: int): map<nat, Document>
    requires failed <= read.Keys
  {
    map n | n in failed :: RecordFailure(read[n], now)
  }

  /** Failures recorded in a row, at the instants given. */
  function RecordAll(d: Document, instants: seq<int>): Document {
    if instants == [] then d else RecordFailure(RecordAll(d, instants[..|instants| - 1]), instants[|instants| - 1])
  }

  /** The n-th failure in a row is counted as such and waits the n-th interval, whatever the clock read before it. */
  lemma {:induction false} FailuresInARow(d: Document, instants: seq<int>)
    requires d.failures == 0
    ensures var r := RecordAll(d, instants);
            var n := |instants|;
            && r.through == d.through && r.failures == n
            && r.retryAt == (if n == 0 then d.retryAt
                             else Some(instants[n - 1] + if n <= 6 then RETRY_BASE_S * Pow2(n - 1) else RETRY_MAX_S))
  {
    if instants != [] {
      var n := |instants|;
      FailuresInARow(d, instants[..n - 1]);
      assert Pow2(5) == 32 && Pow2(6) == 64;
      if n <= 6 {
        Pow2Grows(n - 1, 5);
      } else {
        Pow2Grows(6, Min(n - 1, 16));
      }
    }
  }

  /** Each document of `failed` is what was read with one failure more. */
  ghost predicate AllFailed(read: map<nat, Document>, failed: set<nat>, now: int, files: map<nat, Document>) {
    forall n | n in failed :: n in read && n in files && OneFailureOn(read[n], files[n], now)
  }

  lemma EachFailed(was: map<nat, Document>, read: map<nat, Document>, failed: set<nat>, now: int, files: map<nat, Document>)
    requires failed <= read.Keys && files == was + Failures(read, failed, now)
    ensures AllFailed(read, failed, now, files)
  {}

  /** A recorded failure keeps the next attempt on its document away for the base wait, under a forward clock. */
  lemma RecordedFailurePaces(d: Document, at: int, now: int)
    requires at <= now && Due(RecordFailure(d, at), now)
    ensures now >= at + RETRY_BASE_S
  {}

  /******* Coverage *******/

  /** Whether a returned ingest consumed the inputs an obligation owes. */
  ghost predicate Covered(j: seq<Line>, r: IngestResult, through: Option<nat>) {
    && r.Returned? && r.ran && !r.error
    && match through
       case None => !r.blocked
       case Some(t) =>
         (r.applied.Some? && r.applied.value >= t)
         || !HasInputs(j, if r.applied.Some? then r.applied.value else 0, t)
  }

  /** No admitted input stands between where the ingest applied to and the end owed. */
  ghost predicate NoInputLeft(j: seq<Line>, applied: Option<nat>, t: nat) {
    forall i | (if applied.Some? then applied.value else 0) <= i < t && i < |j| :: !(j[i].Input? && j[i].admitted)
  }

  /**
  What the ingest cycle guarantees: everything before its applied cursor is derived, and a clean cycle
  reached at least the journal end it started from.
  */
  ghost predicate IngestHolds(j: seq<Line>, start: nat, r: IngestResult) {
    r.Returned? && r.ran && !r.error ==>
      && (r.applied.Some? ==> r.applied.value <= |j| && Complete(j, r.applied.value, |j|))
      && (!r.blocked ==> r.applied.Some? && r.applied.value >= start)
  }

  /** Input `i` is derived, or some file still owes it. */
  ghost predicate Safe(j: seq<Line>, files: set<nat>, owes: map<nat, nat>, i: nat) {
    Answered(j, |j|, i) || exists n :: n in files && n in owes && i < owes[n]
  }

  ghost predicate AllSafe(j: seq<Line>, files: set<nat>, owes: map<nat, nat>, c: nat) {
    forall i | 0 <= i < c && i < |j| && IsInput(j[i]) && j[i].derives :: Safe(j, files, owes, i)
  }

  /** A covered obligation owes nothing any more: everything it owed is derived. */
  lemma CoveredIsDerived(j: seq<Line>, start: nat, r: IngestResult, through: Option<nat>, owed: nat)
    requires IngestHolds(j, start, r) && Covered(j, r, through)
    requires if through.Some? then owed == through.value else owed <= start
    requires owed <= |j|
    ensures Complete(j, owed, |j|)
  {}

  class Obligations {
    var lines: seq<Line>
    var files: map<nat, Document>           // by nonce
    var unlistable: Document                // the backoff while the directory cannot be listed
    ghost var owes: map<nat, nat>           // every obligation ever written: the journal end it owes through
    ghost var witnessed: nat                // the furthest journal end a reported completion read
    ghost var lastFailure: Option<int>      // when the last failing attempt started
    ghost var unpaced: set<nat>             // files that attempt did not put in backoff
    ghost var lastUnlistable: Option<int>   // the last attempt over an unlistable directory that was recorded

    ghost predicate Valid()
      reads this
    {
      Owing() && Pacing()
    }

    /** Every obligation ever written is on file or derived, and every input a completion answered for is safe. */
    ghost predicate Owing()
      reads this`lines, this`files, this`owes, this`witnessed
    {
      && files.Keys <= owes.Keys && witnessed <= |lines|
      && (forall n | n in owes :: owes[n] <= |lines|)
      && (forall n | n in files && files[n].through.Some? :: files[n].through.value == owes[n])
      && AllSafe(lines, files.Keys, owes, witnessed)
      && (forall n | n in owes :: n in files || Complete(lines, owes[n], |lines|))
    }

    /** The last failing attempt, and the last one over an unlistable directory, are still waited out. */
    ghost predicate Pacing()
      reads this`files, this`unlistable, this`lastFailure, this`unpaced, this`lastUnlistable
    {
      && (lastFailure.Some? ==> forall n | n in files && n !in unpaced ::
            files[n].retryAt.Some? && lastFailure.value + RETRY_BASE_S <= files[n].retryAt.value <= lastFailure.value + RETRY_MAX_S)
      && (lastUnlistable.Some? ==>
            && unlistable.retryAt.Some?
            && lastUnlistable.value + RETRY_BASE_S <= unlistable.retryAt.value <= lastUnlistable.value + RETRY_MAX_S)
    }

    constructor (j: seq<Line>)
      ensures Valid() && lines == j && files == map[] && owes == map[] && lastFailure == None && witnessed == 0
    {
      lines, files, unlistable := j, map[], UNREADABLE;
      owes, witnessed, lastFailure, unpaced, lastUnlistable := map[], 0, None, {}, None;
    }

    /** Anybody appends to the journal. */
    method Append(more: seq<Line>)
      requires Valid()
      modifies this`lines
      ensures Valid() && lines == old(lines) + more
    {
      Growth(lines, more, files.Keys, owes, witnessed);
      lines := lines + more;
    }

    /**
    A completion returned with its index published through `published`: it wrote its own obligation, under
    a fresh nonce, when a derivable input lies behind that.
    */
    method CompletionReported(published: nat, nonce: nat)
      requires Valid() && nonce !in owes
      requires published <= |lines| && Complete(lines, published, |lines|)
      modifies this
      ensures Valid() && lines == old(lines) && witnessed == |lines| && unlistable == old(unlistable)
      ensures owes == if HasInputs(lines, published, |lines|) then old(owes)[nonce := |lines|] else old(owes)
      ensures files == if HasInputs(lines, published, |lines|)
                       then old(files)[nonce := Document(Some(|lines|), 0, None)] else old(files)
      ensures lastFailure == old(lastFailure) && old(unpaced) <= unpaced <= old(unpaced) + {nonce}
      ensures lastUnlistable == old(lastUnlistable)
    {
      witnessed := |lines|;
      if exists i :: published <= i < |lines| && IsInput(lines[i]) {
        files := files[nonce := Document(Some(|lines|), 0, None)];
        owes := owes[nonce := |lines|];
        unpaced := unpaced + {nonce};
        assert nonce in files;
      }
    }

    /** A file's bytes are lost: it still owes its ingest, and reads as never failed. */
    method FileDamaged(n: nat)
      requires Valid() && n in files
      modifies this`files, this`unpaced
      ensures Valid() && files == old(files)[n := UNREADABLE] && unpaced == old(unpaced) + {n}
    {
      files := files[n := UNREADABLE];
      unpaced := unpaced + {n};
    }

    /**
    The documents an attempt read, whatever became of their files since: each is of an obligation that owes no
    more than the journal held when the ingest started, and names no other end.
    */
    ghost predicate ReadBefore(read: map<nat, Document>, start: nat)
      reads this
    {
      forall n | n in read :: n in owes && owes[n] <= start && (read[n].through.Some? ==> read[n].through.value == owes[n])
    }

    /**
    Unlink exactly the file of an obligation the ingest covered; an unlink that fails leaves it. Whatever goes,
    every obligation ever written is still on file or derived, and every other file is as it was.
    */
    method Discharge(n: nat, removable: bool, ghost read: map<nat, Document>, ghost start: nat, ghost r: IngestResult)
      requires Valid() && IngestHolds(lines, start, r) && start <= |lines|
      requires ReadBefore(read, start) && n in read && Covered(lines, r, read[n].through)
      modifies this`files
      ensures Valid() && files == (if removable then old(files) - {n} else old(files))
      ensures Complete(lines, owes[n], |lines|)
    {
      CoveredIsDerived(lines, start, r, read[n].through, owes[n]);
      if removable {
        DischargedIsSafe(lines, files, files - {n}, owes, witnessed, map[n := read[n]], start, r);
        files := files - {n};
      }
    }

    /**
    Read every obligation and decide whether an attempt runs now: `None` means the ingest does. Under a
    clock that did not step back, it runs within the backoff of the last failure only for a file that
    failure did not put in backoff.
    */
    method BeginAttempt(now: int, clearable: bool) returns (stop: Option<Disposition>, read: map<nat, Document>)
      requires Valid()
      modifies this`unlistable, this`lastUnlistable
      ensures Valid() && read == files && unlistable == (if clearable then UNREADABLE else old(unlistable))
      ensures ReadBefore(read, |lines|)
      ensures stop == if files == map[] then Some(NoneOwed)
                      else if forall n | n in files :: !Due(files[n], now) then Some(Backoff) else None
      ensures stop == Some(Backoff) <==> files != map[] && forall n | n in files :: WaitsAt(files[n], now)
      ensures stop.None? && lastFailure.Some? && lastFailure.value <= now && files.Keys !! unpaced ==>
                now >= lastFailure.value + RETRY_BASE_S
    {
      if clearable {
        unlistable, lastUnlistable := UNREADABLE, None;
      }
      read := files;
      if read == map[] {
        return Some(NoneOwed), read;
      }
      if !exists n :: n in read && Due(read[n], now) {
        return Some(Backoff), read;
      }
      stop := None;
    }

    /**
    The directory cannot be listed: the attempt is recorded before its ingest, and discharges nothing. Under a
    clock that did not step back two attempts are at least the base interval apart, when the first could be
    recorded; and at whatever clock reading none runs, one will within the longest interval.
    */
    method BeginUnlistableAttempt(now: int, writable: bool) returns (run: bool)
      requires Valid()
      modifies this`unlistable, this`lastUnlistable
      ensures Valid() && files == old(files)
      ensures run && old(lastUnlistable).Some? && old(lastUnlistable).value <= now ==>
                now >= old(lastUnlistable).value + RETRY_BASE_S
      ensures run && writable ==> lastUnlistable == Some(now) && unlistable == RecordFailure(old(unlistable), now)
      ensures !writable ==> unlistable == old(unlistable)
      ensures !run ==> unlistable == old(unlistable) && lastUnlistable == old(lastUnlistable)
                       && forall later | later >= now + RETRY_MAX_S :: Due(unlistable, later)
      ensures run <==> Due(old(unlistable), now)
      ensures run <==> !WaitsAt(old(unlistable), now)
    {
      run := Due(unlistable, now);
      if run {
        if writable {
          unlistable, lastUnlistable := RecordFailure(unlistable, now), Some(now);
        } else {
          lastUnlistable := None;
        }
      } else {
        NeverStalls(unlistable, now);
      }
    }

    /** What the ingest covered of the obligations an attempt read. */
    ghost function CoveredOf(read: map<nat, Document>, r: IngestResult): set<nat>
      reads this`lines
    {
      set n | n in read && Covered(lines, r, read[n].through)
    }

    /** Discharge obligation `n` when the ingest covered it. */
    method DischargeIfCovered(n: nat, read: map<nat, Document>, r: IngestResult, removable: set<nat>, ghost start: nat)
      returns (covered: bool)
      requires Valid() && IngestHolds(lines, start, r) && start <= |lines| && ReadBefore(read, start) && n in read
      modifies this`files
      ensures Valid() && (covered <==> n in CoveredOf(read, r))
      ensures files == old(files) - (CoveredOf(read, r) * {n}) * removable
    {
      covered := ResidualCovered(r, read[n].through);
      if covered {
        Discharge(n, n in removable, read, start, r);
      }
    }

    /** Discharge what the ingest covered of the obligations `read` before it. */
    method DischargeCovered(read: map<nat, Document>, r: IngestResult, removable: set<nat>, ghost start: nat)
      returns (uncovered: set<nat>)
      requires Valid() && IngestHolds(lines, start, r) && start <= |lines| && ReadBefore(read, start)
      modifies this`files
      ensures Valid() && uncovered == read.Keys - CoveredOf(read, r)
      ensures files == old(files) - CoveredOf(read, r) * removable
      ensures forall n | n in CoveredOf(read, r) :: Complete(lines, owes[n], |lines|)
    {
      uncovered := {};
      var todo := read.Keys;
      while todo != {}
        invariant Valid() && todo <= read.Keys && uncovered == read.Keys - todo - CoveredOf(read, r)
        invariant files == old(files) - (CoveredOf(read, r) - todo) * removable
        decreases todo
      {
        var n :| n in todo;
        OneMoreGone(old(files), CoveredOf(read, r), todo, removable, n);
        var covered := DischargeIfCovered(n, read, r, removable, start);
        if !covered {
          uncovered := uncovered + {n};
        }
        todo := todo - {n};
      }
      forall n | n in CoveredOf(read, r) ensures Complete(lines, owes[n], |lines|) {
        CoveredIsDerived(lines, start, r, read[n].through, owes[n]);
      }
    }

    /**
    Record one failed attempt in every uncovered obligation whose file can be written: the document that was
    read, one failure further, whatever the file says by now and even when it is gone.
    */
    method RecordFailures(read: map<nat, Document>, uncovered: set<nat>, writable: set<nat>, now: int, ghost start: nat)
      requires Valid() && ReadBefore(read, start) && uncovered <= read.Keys
      modifies this`files, this`unpaced, this`lastFailure
      ensures Valid() && lastFailure == Some(now)
      ensures files == old(files) + Failures(read, uncovered * writable, now)
      ensures AllFailed(read, uncovered * writable, now, files)
    {
      ghost var kept := files.Keys;
      files := files + Failures(read, uncovered * writable, now);
      MoreFilesAreSafe(lines, kept, files.Keys, owes, witnessed);
      EachFailed(old(files), read, uncovered * writable, now, files);
      lastFailure := Some(now);
      unpaced := files.Keys - uncovered * writable;
    }

    /**
    After the ingest returned: discharge what it covered of the obligations `read` before it, and record a
    failure in the others unless a busy lock explains them. Files written meanwhile are not in `read`, and
    files damaged or removed meanwhile count as they were read.
    */
    method Settle(read: map<nat, Document>, now: int, r: IngestResult, ghost start: nat,
                  removable: set<nat>, writable: set<nat>) returns (d: Disposition)
      requires Valid() && IngestHolds(lines, start, r)
      requires read != map[] && start <= |lines| && ReadBefore(read, start)
      modifies this`files, this`unpaced, this`lastFailure
      ensures Valid()
      ensures d == Discharged <==> forall n | n in read :: Covered(lines, r, read[n].through)
      ensures d != Discharged ==> d == if r.Returned? && r.blocked && r.contended then Blocked else Failed
      ensures forall n | n in CoveredOf(read, r) :: Complete(lines, owes[n], |lines|)
      ensures files == old(files) - CoveredOf(read, r) * removable
                       + if d == Failed then Failures(read, (read.Keys - CoveredOf(read, r)) * writable, now) else map[]
      ensures lastFailure == (if d == Failed then Some(now) else old(lastFailure))
    {
      var uncovered := DischargeCovered(read, r, removable, start);
      assert forall n | n in read :: n in uncovered || n in CoveredOf(read, r);
      if uncovered == {} {
        return Discharged;
      }
      assert exists n :: n in uncovered;
      if r.Returned? && r.blocked && r.contended {
        return Blocked;
      }
      RecordFailures(read, uncovered, writable, now, start);
      d := Failed;
    }

    /** The coverage test of one obligation. */
    method ResidualCovered(r: IngestResult, through: Option<nat>) returns (covered: bool)
      requires through.Some? ==> through.value <= |lines|
      ensures covered <==> Covered(lines, r, through)
      ensures covered <==> r.Returned? && r.ran && !r.error && if through.None? then !r.blocked else NoInputLeft(lines, r.applied, through.value)
    {
      if !r.Returned? || !r.ran || r.error {
        return false;
      }
      if through.None? {
        return !r.blocked;
      }
      if r.applied.Some? && r.applied.value >= through.value {
        return true;
      }
      var from := if r.applied.Some? then r.applied.value else 0;
      return !exists i :: from <= i < through.value && IsInput(lines[i]);
    }
  }

  lemma Growth(j: seq<Line>, more: seq<Line>, files: set<nat>, owes: map<nat, nat>, c: nat)
    requires c <= |j| && AllSafe(j, files, owes, c)
    ensures AllSafe(j + more, files, owes, c)
    ensures forall e: nat | e <= |j| && Complete(j, e, |j|) :: Complete(j + more, e, |j + more|)
  {
    forall e: nat | e <= |j| && Complete(j, e, |j|) ensures Complete(j + more, e, |j + more|) {
      CompleteIsStable(j, more, e, |j|);
    }
    forall i | 0 <= i < c && IsInput(j[i]) && j[i].derives ensures Safe(j + more, files, owes, i) {
      assert Safe(j, files, owes, i);
      if Answered(j, |j|, i) {
        var p :| i < p < |j| && Answers(j[p], i);
        assert Answers((j + more)[p], i);
      }
    }
  }

  lemma OneMoreGone(files: map<nat, Document>, covered: set<nat>, todo: set<nat>, removable: set<nat>, n: nat)
    requires n in todo
    ensures files - (covered - (todo - {n})) * removable == files - (covered - todo) * removable - (covered * {n}) * removable
  {}

  lemma MoreFilesAreSafe(j: seq<Line>, files: set<nat>, more: set<nat>, owes: map<nat, nat>, c: nat)
    requires files <= more && AllSafe(j, files, owes, c)
    ensures AllSafe(j, more, owes, c)
  {
    forall i | 0 <= i < c && i < |j| && IsInput(j[i]) && j[i].derives ensures Safe(j, more, owes, i) {
      assert Safe(j, files, owes, i);
    }
  }

  lemma DischargedIsSafe(j: seq<Line>, before: map<nat, Document>, after: map<nat, Document>, owes: map<nat, nat>,
                         c: nat, read: map<nat, Document>, start: nat, r: IngestResult)
    requires before.Keys <= owes.Keys && c <= |j| && AllSafe(j, before.Keys, owes, c) && IngestHolds(j, start, r)
    requires after.Keys <= before.Keys
    requires forall n | n in before && n !in after :: n in read && Covered(j, r, read[n].through)
    requires forall n | n in read && n in before :: owes[n] <= start <= |j| && (read[n].through.Some? ==> read[n].through.value == owes[n])
    ensures forall n | n in before && n !in after :: Complete(j, owes[n], |j|)
    ensures AllSafe(j, after.Keys, owes, c)
  {
    forall n | n in before && n !in after ensures Complete(j, owes[n], |j|) {
      CoveredIsDerived(j, start, r, read[n].through, owes[n]);
    }
    forall i | 0 <= i < c && IsInput(j[i]) && j[i].derives ensures Safe(j, after.Keys, owes, i) {
      assert Safe(j, before.Keys, owes, i);
      if !Answered(j, |j|, i) {
        var n :| n in before.Keys && n in owes && i < owes[n];
        assert n in after.Keys;
      }
    }
  }
}
