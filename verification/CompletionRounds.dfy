/**
The derivation-completion step that runs before a rebuild of the live index: rounds that derive every
admitted input up to a moving target while recorders keep appending, the proof it certifies, and the
obligation it records for what it leaves.

A coordinate is a number of complete lines, so an input at index `i` is at or before `c` when `i < c`.
The step holds the ingest lock: meanwhile nobody else appends an admitted decision.
*/
module CompletionRounds {
  import opened Wrappers

  const MAX_ROUNDS := 3

  /**
  A journal line. An input the pipeline derives from `derives` when its replay gives a decision; a decision
  names the input it was derived from.
  */
  datatype Line = Input(admitted: bool, derives: bool) | Decision(source: nat, admitted: bool) | Other

  /** A derivation proof: the consumed-input frontier and the end its outputs reach. */
  datatype Proof = Proof(frontier: nat, outputEnd: nat)

  predicate IsDecision(l: Line) { l.Decision? && l.admitted }
  predicate IsInput(l: Line) { l.Input? && l.admitted }

  /** An admitted decision is journaled after its input, which is an admitted deriving input. */
  ghost predicate WellFormed(j: seq<Line>) {
    forall p | 0 <= p < |j| && IsDecision(j[p]) :: j[p].source < p && IsInput(j[j[p].source])
  }

  ghost predicate HasInputs(j: seq<Line>, lo: nat, hi: nat) {
    exists i :: lo <= i < hi && i < |j| && IsInput(j[i])
  }

  ghost predicate HasDecisions(j: seq<Line>, lo: nat, hi: nat) {
    exists p :: lo <= p < hi && p < |j| && IsDecision(j[p])
  }

  predicate Answers(l: Line, i: nat) { IsDecision(l) && l.source == i }

  /** Some admitted decision in the first `end` lines answers input `i`. */
  ghost predicate Answered(j: seq<Line>, end: nat, i: nat) {
    exists p :: i < p < end && p < |j| && Answers(j[p], i)
  }

  /** Every admitted input before `c` that derives a decision has it journaled before `end`. */
  ghost predicate Complete(j: seq<Line>, c: nat, end: nat) {
    forall i | 0 <= i < c && i < |j| && IsInput(j[i]) && j[i].derives :: Answered(j, end, i)
  }

  /** Input `i` derives a decision, and no decision before `bound` answers it. */
  ghost predicate Unanswered(j: seq<Line>, bound: nat, i: nat) {
    i < |j| && IsInput(j[i]) && j[i].derives && !Answered(j, bound, i)
  }

  ghost predicate AnyUnanswered(j: seq<Line>, start: nat, target: nat) {
    exists i :: start <= i < target && Unanswered(j, target, i)
  }

  /** The decisions journaled since `was` answer inputs from `start` on, unanswered before `bound`, no input twice. */
  ghost predicate Gained(was: seq<Line>, j: seq<Line>, start: nat, bound: nat) {
    && was <= j
    && (forall p | |was| <= p < |j| && IsDecision(j[p]) :: start <= j[p].source && Unanswered(j, bound, j[p].source))
    && (forall p, q | |was| <= p < q < |j| && IsDecision(j[p]) && IsDecision(j[q]) :: j[p].source != j[q].source)
  }

  /** No decision was journaled since `was`. */
  ghost predicate Undecided(was: seq<Line>, j: seq<Line>) {
    was <= j && forall p | |was| <= p < |j| :: !IsDecision(j[p])
  }

  /** One window's decisions: for the unanswered inputs of `[start, target)`, each of them, and nothing else. */
  ghost predicate Fills(was: seq<Line>, j: seq<Line>, start: nat, target: nat) {
    && Gained(was, j, start, target)
    && (forall p | |was| <= p < |j| && IsDecision(j[p]) :: start <= j[p].source < target)
    && (forall i | start <= i < target && Unanswered(was, target, i) :: exists p :: |was| <= p < |j| && Answers(j[p], i))
  }

  /** No admitted decision in `[lo, hi)` derives from an input at or after `lo`. */
  ghost predicate NothingLater(j: seq<Line>, lo: nat, hi: nat) {
    forall p | lo <= p < hi && p < |j| && IsDecision(j[p]) :: j[p].source < lo
  }

  /** What a published proof claims: complete through the frontier, by outputs that derive from nothing later. */
  ghost predicate Holds(j: seq<Line>, proof: Proof) {
    && proof.frontier <= |j| && proof.outputEnd <= |j|
    && Complete(j, proof.frontier, proof.outputEnd)
    && NothingLater(j, proof.frontier, proof.outputEnd)
  }

  /** A proof is a journal fact: growth never takes it away. */
  lemma ProofIsStable(j: seq<Line>, more: seq<Line>, proof: Proof)
    requires Holds(j, proof)
    ensures Holds(j + more, proof)
  {
    CompleteIsStable(j, more, proof.frontier, proof.outputEnd);
  }

  lemma CompleteIsStable(j: seq<Line>, more: seq<Line>, c: nat, end: nat)
    requires c <= |j| && Complete(j, c, end)
    ensures forall e | e >= end :: Complete(j + more, c, e)
  {
    forall e, i | e >= end && 0 <= i < c && IsInput(j[i]) && j[i].derives
      ensures Answered(j + more, e, i)
    {
      var p :| i < p < end && p < |j| && Answers(j[p], i);
      assert Answers((j + more)[p], i);
    }
  }

  lemma CompleteMonotone(j: seq<Line>, c: nat, c': nat, end: nat, end': nat)
    requires c' <= c && end <= end' && Complete(j, c, end)
    ensures Complete(j, c', end')
  {
    forall i | 0 <= i < c' && i < |j| && IsInput(j[i]) && j[i].derives ensures Answered(j, end', i) {
      var p :| i < p < end && p < |j| && Answers(j[p], i);
    }
  }

  /** Lines other processes may append while the ingest lock is held. */
  ghost predicate Recorders(lines: seq<Line>) {
    forall k | 0 <= k < |lines| :: !IsDecision(lines[k])
  }

  /**
  The certification argument, on its own: with nothing but this step's own outputs and recorders' lines
  since `entry`, and before `entry` no input after `proven` - or no decision at all - nothing between
  `proven` and the end derives from a later input.
  */
  lemma CertifiedIsSound(j: seq<Line>, proven: nat, entry: nat)
    requires WellFormed(j) && entry <= |j|
    requires forall p | entry <= p < |j| && IsDecision(j[p]) :: j[p].source < proven
    requires proven >= entry || !HasInputs(j, proven, entry) || !HasDecisions(j, proven, entry)
    ensures NothingLater(j, proven, |j|)
  {
    forall p | proven <= p < |j| && IsDecision(j[p])
      ensures j[p].source < proven
    {
      assert IsInput(j[j[p].source]) && j[p].source < p;
    }
  }

  /** An input the completion answers for: decided behind the published prefix, or owed by an obligation. */
  ghost predicate Accounted(j: seq<Line>, published: nat, obligations: seq<Obligation>, i: nat) {
    || (i < published && Answered(j, |j|, i))
    || exists k :: 0 <= k < |obligations| && obligations[k].published <= i < obligations[k].residualThrough
  }

  /**
  No derivable input is lost: when the completion returns without raising, every admitted input before the
  journal end it read is answered for.
  */
  lemma NoInputIsLost(j: seq<Line>, published: nat, before: seq<Obligation>, after: seq<Obligation>, outcome: Outcome, i: nat)
    requires published <= |j| && Complete(j, published, |j|) && i < |j| && IsInput(j[i]) && j[i].derives
    requires match outcome
             case PublishedNothingOwed => !HasInputs(j, published, |j|)
             case Published => after == before + [Obligation(published, |j|)]
             case ResidualObligationNotDurable => false
    ensures Accounted(j, published, after, i)
  {
    if i >= published && outcome.Published? {
      assert after[|before|] == Obligation(published, |j|);
    }
  }

  ghost predicate EachAccounted(j: seq<Line>, published: nat, obligations: seq<Obligation>) {
    forall i | 0 <= i < |j| && IsInput(j[i]) && j[i].derives :: Accounted(j, published, obligations, i)
  }

  lemma AllAccounted(j: seq<Line>, published: nat, before: seq<Obligation>, after: seq<Obligation>, outcome: Outcome)
    requires published <= |j| && Complete(j, published, |j|)
    requires match outcome
             case PublishedNothingOwed => !HasInputs(j, published, |j|)
             case Published => after == before + [Obligation(published, |j|)]
             case ResidualObligationNotDurable => false
    ensures EachAccounted(j, published, after)
  {
    forall i | 0 <= i < |j| && IsInput(j[i]) && j[i].derives ensures Accounted(j, published, after, i) {
      NoInputIsLost(j, published, before, after, outcome, i);
    }
  }

  datatype Obligation = Obligation(published: nat, residualThrough: nat)
  datatype Outcome = Published | PublishedNothingOwed | ResidualObligationNotDurable

  class Completion {
    var lines: seq<Line>
    var arrivals: seq<seq<Line>>   // what recorders append before each coming access, in order
    var windows: nat               // completion windows run so far
    var published: nat             // the prefix the live index covers
    var proof: Option<Proof>       // the proof it carries
    var obligations: seq<Obligation>

    ghost predicate Valid()
      reads this
    {
      && WellFormed(lines) && published <= |lines|
      && (forall k | 0 <= k < |arrivals| :: Recorders(arrivals[k]))
    }

    /** Every decision since `entry` is an own output for an input before `c`. */
    ghost predicate OwnOutputs(entry: nat, c: nat)
      reads this
    {
      entry <= |lines| && forall p | entry <= p < |lines| && IsDecision(lines[p]) :: lines[p].source < c
    }

    /** Recorders get their turn. */
    method Interfere()
      requires Valid()
      modifies this`lines, this`arrivals
      ensures Valid() && old(lines) <= lines && Recorders(lines[|old(lines)|..])
    {
      if arrivals != [] {
        RecordersKeepWellFormed(lines, arrivals[0]);
        lines, arrivals := lines + arrivals[0], arrivals[1..];
      }
    }

    /** The safe journal end, now. */
    method ReadEnd() returns (end: nat)
      requires Valid()
      modifies this`lines, this`arrivals
      ensures Valid() && old(lines) <= lines && Recorders(lines[|old(lines)|..]) && end == |lines|
    {
      Interfere();
      end := |lines|;
    }

    method WindowHasDerivableInputs(lo: nat, hi: nat) returns (found: bool)
      requires hi <= |lines|
      ensures found <==> HasInputs(lines, lo, hi)
    {
      for i := lo to if hi < lo then lo else hi
        invariant forall q | lo <= q < i :: !IsInput(lines[q])
      {
        if IsInput(lines[i]) {
          return true;
        }
      }
      return false;
    }

    method WindowHasAdmittedDecisions(lo: nat, hi: nat) returns (found: bool)
      requires hi <= |lines|
      ensures found <==> HasDecisions(lines, lo, hi)
    {
      for i := lo to if hi < lo then lo else hi
        invariant forall q | lo <= q < i :: !IsDecision(lines[q])
      {
        if IsDecision(lines[i]) {
          return true;
        }
      }
      return false;
    }

    /** Certify `proven` when that is sound, otherwise let the proof completion started from stand. */
    method Certify(proven: nat, entry: nat, fallback: Option<Proof>) returns (certified: Option<Proof>)
      requires Valid() && proven <= |lines| && OwnOutputs(entry, proven) && Complete(lines, proven, |lines|)
      requires fallback.Some? ==> Holds(lines, fallback.value)
      modifies this`lines, this`arrivals
      ensures Valid() && old(lines) <= lines && Recorders(lines[|old(lines)|..])
      ensures OwnOutputs(entry, proven) && Complete(lines, proven, |lines|)
      ensures certified.Some? ==> Holds(lines, certified.value)
      ensures certified == if proven < entry && HasInputs(old(lines), proven, entry) && HasDecisions(old(lines), proven, entry)
                           then fallback else Some(Proof(proven, |lines|))
    {
      var sound := proven >= entry;
      if !sound {
        var inputs := WindowHasDerivableInputs(proven, entry);
        sound := !inputs;
      }
      if !sound {
        var decisions := WindowHasAdmittedDecisions(proven, entry);
        sound := !decisions;
      }
      ghost var was := lines;
      if sound {
        var end := ReadEnd();
        Grown(was, lines, entry, proven);
        CertifiedIsSound(lines, proven, entry);
        return Some(Proof(proven, end));
      }
      return fallback;
    }

    /** The decisions a window owes, in input order: one for every deriving input no decision before the target answers. */
    method WindowOutputs(start: nat, target: nat) returns (outputs: seq<Line>)
      requires start <= target <= |lines|
      ensures OutputsFor(lines, start, target, outputs)
    {
      outputs := [];
      for i := start to target
        invariant OutputsFor(lines, start, target, outputs, i)
      {
        var gap := IsInput(lines[i]) && lines[i].derives && !exists p :: i < p < target && Answers(lines[p], i);
        OneMoreOutput(lines, start, target, outputs, i);
        if gap {
          outputs := outputs + [Decision(i, true)];
        }
      }
    }

    /**
    One round: journal a decision for every input of `[start, target)` that lacks one. Tells whether
    anything was appended.
    */
    method CompleteWindow(start: nat, target: nat, ghost entry: nat) returns (appended: bool)
      requires Valid() && start <= target <= |lines| && OwnOutputs(entry, target)
      requires Complete(lines, start, |lines|)
      modifies this`lines, this`arrivals, this`windows
      ensures Valid() && old(lines) <= lines && windows == old(windows) + 1 && OwnOutputs(entry, target)
      ensures Complete(lines, target, |lines|)
      ensures Fills(old(lines), lines, start, target)
      ensures appended <==> AnyUnanswered(old(lines), start, target)
      ensures !appended ==> lines == old(lines)
    {
      windows := windows + 1;
      ghost var was := lines;
      var outputs := WindowOutputs(start, target);
      SomeOutputIff(lines, start, target, outputs);
      if outputs != [] {
        Interfere();
        WindowFills(was, lines, outputs, start, target);
        WindowDone(was, lines, outputs, start, target, entry);
        lines := lines + outputs;
        return true;
      }
      WindowFills(was, was, outputs, start, target);
      WindowDone(was, was, outputs, start, target, entry);
      assert was + outputs == was;
      return false;
    }

    /**
    The round loop, over a window that holds a derivable input. It stops short of the last round only with every
    derivable input of its window answered before the target.
    */
    method Rounds(start: nat, target0: nat, entry: nat, trusted: Option<Proof>) returns (certified: Option<Proof>, target: nat)
      requires Valid() && start <= target0 <= |lines| && OwnOutputs(entry, target0)
      requires Complete(lines, start, |lines|)
      requires trusted.Some? ==> Holds(lines, trusted.value)
      modifies this`lines, this`arrivals, this`windows
      ensures Valid() && old(lines) <= lines && target0 <= target <= |lines|
      ensures Complete(lines, target, |lines|)
      ensures certified.Some? ==> Holds(lines, certified.value)
      ensures CertifiedAt(lines, certified, trusted, target, entry)
      ensures windows <= old(windows) + MAX_ROUNDS
      ensures windows < old(windows) + MAX_ROUNDS ==> !AnyUnanswered(lines, start, target)
      ensures Gained(old(lines), lines, start, target0)
      ensures !AnyUnanswered(old(lines), start, target0) ==> Undecided(old(lines), lines)
    {
      ghost var first := lines;
      target := RunRounds(start, target0, entry, trusted);
      certified := Finish(start, target, entry, trusted, first, target0);
    }

    /** The rounds themselves: the target moves to the journal end behind each round that appended and left more. */
    method RunRounds(start: nat, target0: nat, entry: nat, ghost trusted: Option<Proof>) returns (target: nat)
      requires Valid() && start <= target0 <= |lines| && OwnOutputs(entry, target0)
      requires Complete(lines, start, |lines|)
      requires trusted.Some? ==> Holds(lines, trusted.value)
      modifies this`lines, this`arrivals, this`windows
      ensures Valid() && old(lines) <= lines && target0 <= target <= |lines| && OwnOutputs(entry, target)
      ensures Complete(lines, target, |lines|) && (trusted.Some? ==> Holds(lines, trusted.value))
      ensures windows <= old(windows) + MAX_ROUNDS
      ensures windows < old(windows) + MAX_ROUNDS ==> !AnyUnanswered(lines, start, target)
      ensures Gained(old(lines), lines, start, target0)
      ensures !AnyUnanswered(old(lines), start, target0) ==> lines == old(lines)
    {
      target := target0;
      ghost var first := lines;
      for round := 0 to MAX_ROUNDS
        invariant windows == old(windows) + round
        invariant Valid() && target0 <= target <= |lines| && OwnOutputs(entry, target) && Complete(lines, start, |lines|)
        invariant trusted.Some? ==> Holds(lines, trusted.value)
        invariant round == MAX_ROUNDS ==> Complete(lines, target, |lines|)
        invariant Gained(first, lines, start, target0)
        invariant if round == 0 then target == target0 && lines == first else AnyUnanswered(first, start, target0)
        invariant 0 < round < MAX_ROUNDS ==> target == |lines|
      {
        var appended, after, more := NextRound(start, target, entry, trusted, first, target0);
        if !appended {
          return;
        }
        if !more {
          return after;
        }
        if round + 1 < MAX_ROUNDS {
          target := after;
        }
      }
    }

    /** A round among those since `first`: what all of them gained is still for unanswered inputs, none twice. */
    method NextRound(start: nat, target: nat, entry: nat, ghost trusted: Option<Proof>, ghost first: seq<Line>, ghost target0: nat)
      returns (appended: bool, after: nat, more: bool)
      requires Valid() && start <= target <= |lines| && OwnOutputs(entry, target) && Complete(lines, start, |lines|)
      requires trusted.Some? ==> Holds(lines, trusted.value)
      requires Gained(first, lines, start, target0) && target0 <= target
      requires target == |lines| || (lines == first && target == target0)
      modifies this`lines, this`arrivals, this`windows
      ensures Valid() && target <= after == |lines| && windows == old(windows) + 1
      ensures OwnOutputs(entry, target) && OwnOutputs(entry, after)
      ensures Complete(lines, start, |lines|) && Complete(lines, target, |lines|)
      ensures !more ==> Complete(lines, after, |lines|)
      ensures trusted.Some? ==> Holds(lines, trusted.value)
      ensures Gained(first, lines, start, target0)
      ensures appended <==> AnyUnanswered(old(lines), start, target)
      ensures !appended ==> lines == old(lines)
    {
      ghost var was := lines;
      appended, after, more := Round(start, target, entry, trusted);
      if target == |was| { GainedInTurn(first, was, lines, start, target0, target); }
    }

    /** Certify at the target reached; recorders may append meanwhile. */
    method Finish(start: nat, target: nat, entry: nat, trusted: Option<Proof>, ghost first: seq<Line>, ghost target0: nat)
      returns (certified: Option<Proof>)
      requires Valid() && target <= |lines| && OwnOutputs(entry, target) && Complete(lines, target, |lines|)
      requires trusted.Some? ==> Holds(lines, trusted.value)
      requires Gained(first, lines, start, target0) && target0 <= |lines|
      modifies this`lines, this`arrivals
      ensures Valid() && old(lines) <= lines && Recorders(lines[|old(lines)|..]) && Complete(lines, target, |lines|)
      ensures certified.Some? ==> Holds(lines, certified.value)
      ensures CertifiedAt(lines, certified, trusted, target, entry)
      ensures Gained(first, lines, start, target0) && Undecided(old(lines), lines)
      ensures AnyUnanswered(lines, start, target) == AnyUnanswered(old(lines), start, target)
    {
      ghost var was := lines;
      certified := Certify(target, entry, trusted);
      RecordersDecideNothing(was, lines);
      RecordersGainNothing(first, was, lines, start, target0);
      StaysAnswered(was, lines, start, target);
      SameWindow(was, lines, target, entry);
    }

    /** One window, and what recorders left after it. */
    method Round(start: nat, target: nat, entry: nat, ghost trusted: Option<Proof>) returns (appended: bool, after: nat, more: bool)
      requires Valid() && start <= target <= |lines| && OwnOutputs(entry, target)
      requires Complete(lines, start, |lines|)
      requires trusted.Some? ==> Holds(lines, trusted.value)
      modifies this`lines, this`arrivals, this`windows
      ensures Valid() && old(lines) <= lines && target <= after == |lines| && windows == old(windows) + 1
      ensures OwnOutputs(entry, target) && OwnOutputs(entry, after)
      ensures Complete(lines, start, |lines|) && Complete(lines, target, |lines|)
      ensures !more ==> Complete(lines, after, |lines|)
      ensures more <==> HasInputs(lines, target, after)
      ensures Gained(old(lines), lines, start, target) && (appended <==> AnyUnanswered(old(lines), start, target))
      ensures !appended ==> lines == old(lines)
      ensures trusted.Some? ==> Holds(lines, trusted.value)
    {
      ghost var first := lines;
      appended := CompleteWindow(start, target, entry);
      Trusts(first, lines, trusted);
      after := |lines|;
      if appended {
        after := ReadAfter(start, target, entry, trusted, first);
      }
      CompleteMonotone(lines, target, start, |lines|, |lines|);
      more := WindowHasDerivableInputs(target, after);
    }

    /** The journal end behind a window that appended, and whatever recorders left there. */
    method ReadAfter(ghost start: nat, ghost target: nat, ghost entry: nat, ghost trusted: Option<Proof>, ghost first: seq<Line>)
      returns (after: nat)
      requires Valid() && target <= |lines| && OwnOutputs(entry, target) && Complete(lines, target, |lines|)
      requires Gained(first, lines, start, target) && (trusted.Some? ==> Holds(lines, trusted.value))
      modifies this`lines, this`arrivals
      ensures Valid() && old(lines) <= lines && after == |lines| && OwnOutputs(entry, target) && Complete(lines, target, |lines|)
      ensures Gained(first, lines, start, target) && (trusted.Some? ==> Holds(lines, trusted.value))
    {
      ghost var was := lines;
      after := ReadEnd();
      Trusts(was, lines, trusted);
      Grown(was, lines, entry, target);
      RecordersGainNothing(first, was, lines, start, target);
    }

    /**
    The proof to publish, and the prefix the live index must cover. On return every admitted input before
    the target has its decisions journaled, whatever recorders appended meanwhile.
    */
    method CompleteDerivation(trusted: Option<Proof>, target0: nat) returns (certified: Option<Proof>, target: nat)
      requires Valid() && target0 <= |lines|
      requires trusted.Some? ==> Holds(lines, trusted.value)
      modifies this`lines, this`arrivals, this`windows
      ensures Valid() && old(lines) <= lines && target0 <= target <= |lines|
      ensures windows <= old(windows) + MAX_ROUNDS
      ensures old(windows) < windows < old(windows) + MAX_ROUNDS ==> !AnyUnanswered(lines, StartOf(trusted), target)
      ensures Derived(old(lines), lines, target0, target, trusted, certified)
    {
      ghost var was := lines;
      var entry := ReadEnd();
      Trusts(was, lines, trusted);
      ghost var first := lines;
      certified, target := DeriveFrom(entry, trusted, target0);
      DerivedBefore(was, first, lines, target0, target, trusted, certified);
    }

    /** The choice of start and the early returns, once the journal end at `entry` is read. */
    method DeriveFrom(entry: nat, trusted: Option<Proof>, target0: nat) returns (certified: Option<Proof>, target: nat)
      requires Valid() && target0 <= entry == |lines|
      requires trusted.Some? ==> Holds(lines, trusted.value)
      modifies this`lines, this`arrivals, this`windows
      ensures Valid() && old(lines) <= lines && target0 <= target <= |lines|
      ensures windows <= old(windows) + MAX_ROUNDS
      ensures old(windows) < windows < old(windows) + MAX_ROUNDS ==> !AnyUnanswered(lines, StartOf(trusted), target)
      ensures Derived(old(lines), lines, target0, target, trusted, certified)
    {
      var start := StartOf(trusted);
      TrustedStart(lines, trusted);
      if start >= target0 {
        CompleteMonotone(lines, start, target0, |lines|, |lines|);
        if trusted.Some? {
          return trusted, target0;
        }
        target := target0;
        certified := Finish(start, target, entry, None, lines, target0);
        return;
      }
      var derivable := WindowHasDerivableInputs(start, target0);
      if !derivable {
        NoInputsComplete(lines, start, target0);
        target := target0;
        certified := Finish(start, target, entry, trusted, lines, target0);
        return;
      }
      certified, target := Rounds(start, target0, entry, trusted);
    }

    /** The prefix a completion aims at: the caller's pinned one, or the safe journal end. */
    method TargetOf(highWater: Option<nat>) returns (target: nat)
      requires Valid() && (highWater.Some? ==> highWater.value <= |lines|)
      modifies this`lines, this`arrivals
      ensures Valid() && old(lines) <= lines && Recorders(lines[|old(lines)|..])
      ensures highWater.Some? ==> target == highWater.value && lines == old(lines)
      ensures highWater.None? ==> target == |lines|
    {
      if highWater.Some? {
        return highWater.value;
      }
      target := ReadEnd();
    }

    /** Behind a publication: read the journal end, and owe an ingest when a derivable input lies before it. */
    method OweResidual(durable: bool) returns (outcome: Outcome, end: nat)
      requires Valid() && Complete(lines, published, |lines|)
      modifies this`lines, this`arrivals, this`obligations
      ensures Valid() && old(lines) <= lines && Recorders(lines[|old(lines)|..]) && end == |lines|
      ensures Complete(lines, published, |lines|)
      ensures outcome == PublishedNothingOwed <==> NoneBehind(lines, published)
      ensures match outcome
              case PublishedNothingOwed => !HasInputs(lines, published, end) && obligations == old(obligations)
              case Published => HasInputs(lines, published, end) && obligations == old(obligations) + [Obligation(published, end)]
              case ResidualObligationNotDurable => HasInputs(lines, published, end) && !durable && obligations == old(obligations)
    {
      ghost var was := lines;
      end := ReadEnd();
      StaysComplete(was, lines, published);
      var owed := WindowHasDerivableInputs(published, end);
      NoneBehindIff(lines, published);
      if !owed {
        return PublishedNothingOwed, end;
      }
      if !durable {
        return ResidualObligationNotDurable, end;
      }
      obligations := obligations + [Obligation(published, end)];
      return Published, end;
    }

    /** The completion and its publication, on a journal with a boundary. */
    method Publish(highWater: Option<nat>, trusted: Option<Proof>) returns (ghost bound: nat)
      requires Valid() && (highWater.Some? ==> highWater.value <= |lines|)
      requires trusted.Some? ==> Holds(lines, trusted.value)
      modifies this`lines, this`arrivals, this`windows, this`published, this`proof
      ensures Valid() && old(lines) <= lines && windows <= old(windows) + MAX_ROUNDS
      ensures highWater.Some? ==> bound == highWater.value
      ensures highWater.None? ==> |old(lines)| <= bound
      ensures Rebuilt(old(lines), lines, bound, published, trusted, proof)
    {
      ghost var was := lines;
      var target := TargetOf(highWater);
      Trusts(was, lines, trusted);
      ghost var first := lines;
      bound := target;
      proof, target := CompleteDerivation(trusted, target);
      published := target;
      DerivedIsRebuilt(was, first, lines, bound, published, trusted, proof);
    }

    /**
    Complete derivation through the rebuild's prefix, publish the live index over it, and owe one ingest
    when the prefix stops before a derivable input. `highWater` is a caller's pinned prefix; `durable` is
    whether the obligation file could be made durable; `bound` is the prefix the completion aimed at.
    */
    method CompleteAndRebuild(boundary: bool, highWater: Option<nat>, trusted: Option<Proof>, durable: bool)
      returns (outcome: Outcome, end: nat, ghost bound: nat)
      requires Valid() && (highWater.Some? ==> highWater.value <= |lines|)
      requires trusted.Some? ==> Holds(lines, trusted.value)
      modifies this
      ensures Valid() && old(lines) <= lines
      ensures boundary ==> end == |lines| && windows <= old(windows) + MAX_ROUNDS
      ensures boundary && highWater.Some? ==> bound == highWater.value
      ensures boundary && highWater.None? ==> |old(lines)| <= bound
      ensures boundary ==> Rebuilt(old(lines), lines, bound, published, trusted, proof)
      ensures boundary ==> InLines(old(lines), lines, trusted, bound, published)
      ensures boundary ==> (outcome == PublishedNothingOwed <==> NoneBehind(lines, published))
      ensures boundary ==> match outcome
                case PublishedNothingOwed => !HasInputs(lines, published, end) && obligations == old(obligations)
                case Published => HasInputs(lines, published, end) && obligations == old(obligations) + [Obligation(published, end)]
                case ResidualObligationNotDurable => HasInputs(lines, published, end) && !durable && obligations == old(obligations)
      ensures boundary && outcome != ResidualObligationNotDurable ==>
                EachAccounted(lines, published, obligations)
      ensures !boundary ==> lines == old(lines) && windows == old(windows) && obligations == old(obligations)
                            && outcome == PublishedNothingOwed
      ensures !boundary ==> published == if highWater.Some? then highWater.value else |lines|
    {
      bound := 0;
      if !boundary {
        // Nothing is fenced: apply-only, over the pinned prefix or the whole journal, whatever proof it carries.
        published := if highWater.Some? then highWater.value else |lines|;
        return PublishedNothingOwed, |lines|, bound;
      }
      ghost var first := lines;
      bound := Publish(highWater, trusted);
      ghost var was := lines;
      outcome, end := OweResidual(durable);
      AfterPublication(first, was, lines, bound, published, trusted, proof);
      if outcome != ResidualObligationNotDurable {
        AllAccounted(lines, published, old(obligations), obligations, outcome);
      }
    }
  }

  /** Decisions and derivable inputs stand behind the published prefix, so no proof could be certified there. */
  ghost predicate Withheld(j: seq<Line>, published: nat) {
    exists e :: published < e <= |j| && HasInputs(j, published, e) && HasDecisions(j, published, e)
  }

  /**
  What a completion that aimed at `bound` leaves of a journal `was`: the published prefix complete, decisions gained
  for unanswered inputs only and none where nothing was unanswered, and a proof that holds of it: a fresh one of
  the published prefix, the trusted one, or none where none could be certified and none was trusted.
  */
  ghost predicate Rebuilt(was: seq<Line>, j: seq<Line>, bound: nat, published: nat, trusted: Option<Proof>, proof: Option<Proof>) {
    && bound <= published <= |j| && Complete(j, published, |j|)
    && Gained(was, j, StartOf(trusted), bound) && (!AnyUnanswered(j, 0, bound) ==> Undecided(was, j))
    && (proof.Some? ==> Holds(j, proof.value) && (proof == trusted || proof.value.frontier == published))
    && (proof.None? ==> trusted.None? && Withheld(j, published))
  }

  ghost predicate DecidedAt(j: seq<Line>, i: int, end: nat) { exists p :: i < p < end && p < |j| && 0 <= i && j[p] == Decision(i, true) }

  /** No admitted input stands behind the published prefix. */
  ghost predicate NoneBehind(j: seq<Line>, published: nat) {
    forall i | published <= i < |j| :: !(j[i].Input? && j[i].admitted)
  }

  /**
  A completion in the lines themselves: every admitted deriving input of the published prefix has an admitted
  decision, and every admitted decision gained is for such an input, behind what a trusted proof consumed, that had
  none before `bound`, no two for one.
  */
  ghost predicate InLines(was: seq<Line>, j: seq<Line>, trusted: Option<Proof>, bound: nat, published: nat) {
    && was <= j
    && (forall i | 0 <= i < published && i < |j| && j[i] == Input(true, true) :: DecidedAt(j, i, |j|))
    && (forall p | |was| <= p < |j| && j[p].Decision? && j[p].admitted ::
          GainedFor(j, trusted, bound, j[p].source))
    && (forall p, q | |was| <= p < q < |j| && j[p].Decision? && j[p].admitted && j[q].Decision? && j[q].admitted ::
          j[p].source != j[q].source)
  }

  ghost predicate GainedFor(j: seq<Line>, trusted: Option<Proof>, bound: nat, i: nat) {
    i < |j| && j[i] == Input(true, true) && !DecidedAt(j, i, bound) && (trusted.Some? ==> trusted.value.frontier <= i)
  }

  lemma NoneBehindIff(j: seq<Line>, published: nat)
    ensures NoneBehind(j, published) <==> !HasInputs(j, published, |j|)
  {
    if HasInputs(j, published, |j|) {
      var i :| published <= i < |j| && IsInput(j[i]);
      assert j[i].Input? && j[i].admitted;
    }
    if !NoneBehind(j, published) {
      var i :| published <= i < |j| && j[i].Input? && j[i].admitted;
      assert IsInput(j[i]);
    }
  }

  lemma AnsweredInLines(j: seq<Line>, end: nat, i: nat)
    ensures Answered(j, end, i) <==> DecidedAt(j, i, end)
  {
    if Answered(j, end, i) {
      var p :| i < p < end && p < |j| && Answers(j[p], i);
      assert j[p] == Decision(i, true);
    }
    if DecidedAt(j, i, end) {
      var p :| i < p < end && p < |j| && j[p] == Decision(i, true);
      assert Answers(j[p], i);
    }
  }

  lemma RebuiltInLines(was: seq<Line>, j: seq<Line>, trusted: Option<Proof>, bound: nat, published: nat)
    requires Complete(j, published, |j|) && Gained(was, j, StartOf(trusted), bound)
    ensures InLines(was, j, trusted, bound, published)
  {
    forall i | 0 <= i < published && i < |j| && j[i] == Input(true, true) ensures DecidedAt(j, i, |j|) {
      AnsweredInLines(j, |j|, i);
      assert IsInput(j[i]);
    }
    forall p | |was| <= p < |j| && j[p].Decision? && j[p].admitted
      ensures GainedFor(j, trusted, bound, j[p].source)
    {
      assert IsDecision(j[p]);
      AnsweredInLines(j, bound, j[p].source);
    }
    forall p, q | |was| <= p < q < |j| && j[p].Decision? && j[p].admitted && j[q].Decision? && j[q].admitted
      ensures j[p].source != j[q].source
    {
      assert IsDecision(j[p]) && IsDecision(j[q]);
    }
  }

  /** Where a completion starts: behind what a trusted proof consumed, or at the origin. */
  function StartOf(trusted: Option<Proof>): nat { if trusted.Some? then trusted.value.frontier else 0 }

  /**
  The proof certified at `target`: a fresh one reaching the journal end, unless decisions and derivable inputs
  stood behind the target when completion started; then `fallback` stays.
  */
  ghost predicate CertifiedAt(j: seq<Line>, certified: Option<Proof>, fallback: Option<Proof>, target: nat, entry: nat) {
    certified == if target < entry && HasInputs(j, target, entry) && HasDecisions(j, target, entry)
                 then fallback else Some(Proof(target, |j|))
  }

  /** What a derivation from `trusted` that aimed at `bound` and reached `target` leaves of a journal `first`. */
  ghost predicate Derived(first: seq<Line>, j: seq<Line>, bound: nat, target: nat, trusted: Option<Proof>, certified: Option<Proof>) {
    && Complete(j, target, |j|) && Gained(first, j, StartOf(trusted), bound)
    && (!AnyUnanswered(first, StartOf(trusted), bound) ==> Undecided(first, j))
    && (certified.Some? ==> Holds(j, certified.value))
    && (if trusted.Some? && trusted.value.frontier >= bound then certified == trusted && target == bound
        else exists entry :: |first| <= entry <= |j| && CertifiedAt(j, certified, trusted, target, entry))
  }

  lemma DerivedBefore(was: seq<Line>, first: seq<Line>, j: seq<Line>, bound: nat, target: nat, trusted: Option<Proof>,
                      certified: Option<Proof>)
    requires was <= first && Recorders(first[|was|..]) && bound <= |was| && Derived(first, j, bound, target, trusted, certified)
    ensures Derived(was, j, bound, target, trusted, certified)
  {
    RecordersFirst(was, first, j, StartOf(trusted), bound);
    RecordersDecideNothing(was, first);
    StaysAnswered(was, first, StartOf(trusted), bound);
    if Undecided(first, j) { StillUndecided(was, first, j); }
  }

  lemma DerivedIsRebuilt(was: seq<Line>, first: seq<Line>, j: seq<Line>, bound: nat, target: nat, trusted: Option<Proof>,
                         certified: Option<Proof>)
    requires was <= first && Recorders(first[|was|..]) && bound <= |first| && bound <= target <= |j|
    requires Derived(first, j, bound, target, trusted, certified)
    ensures Rebuilt(was, j, bound, target, trusted, certified)
  {
    RecordersFirst(was, first, j, StartOf(trusted), bound);
    RecordersDecideNothing(was, first);
    NothingMissing(was, first, j, StartOf(trusted), bound);
  }

  lemma NothingMissing(was: seq<Line>, first: seq<Line>, j: seq<Line>, start: nat, bound: nat)
    requires Undecided(was, first) && first <= j && bound <= |first|
    requires !AnyUnanswered(first, start, bound) ==> Undecided(first, j)
    ensures !AnyUnanswered(j, 0, bound) ==> Undecided(was, j)
  {
    StaysAnswered(first, j, start, bound);
    if Undecided(first, j) { StillUndecided(was, first, j); }
  }

  lemma StaysWithheld(was: seq<Line>, j: seq<Line>, published: nat)
    requires was <= j && Withheld(was, published)
    ensures Withheld(j, published)
  {
    var e :| published < e <= |was| && HasInputs(was, published, e) && HasDecisions(was, published, e);
    SameWindow(was, j, published, e);
  }

  /** What recorders append behind the publication takes nothing of that away. */
  lemma AfterPublication(first: seq<Line>, was: seq<Line>, j: seq<Line>, bound: nat, published: nat, trusted: Option<Proof>,
                         proof: Option<Proof>)
    requires was <= j && Recorders(j[|was|..]) && Rebuilt(first, was, bound, published, trusted, proof)
    ensures Rebuilt(first, j, bound, published, trusted, proof) && InLines(first, j, trusted, bound, published)
  {
    StaysComplete(was, j, published);
    Trusts(was, j, proof);
    RecordersGainNothing(first, was, j, StartOf(trusted), bound);
    StaysAnswered(was, j, 0, bound);
    RecordersDecideNothing(was, j);
    if Undecided(first, was) { StillUndecided(first, was, j); }
    if proof.None? { StaysWithheld(was, j, published); }
    RebuiltInLines(first, j, trusted, bound, published);
  }

  lemma StaysComplete(was: seq<Line>, j: seq<Line>, c: nat)
    requires was <= j && c <= |was| && Complete(was, c, |was|)
    ensures Complete(j, c, |j|)
  {
    CompleteIsStable(was, j[|was|..], c, |was|);
    assert was + j[|was|..] == j;
  }

  lemma RecordersKeepWellFormed(j: seq<Line>, more: seq<Line>)
    requires WellFormed(j) && Recorders(more)
    ensures WellFormed(j + more)
  {
    assert forall p | |j| <= p < |j + more| :: (j + more)[p] == more[p - |j|];
  }

  lemma OwnOutputsGrow(was: seq<Line>, j: seq<Line>, entry: nat, c: nat)
    requires was <= j && Recorders(j[|was|..])
    requires forall p | entry <= p < |was| && IsDecision(was[p]) :: was[p].source < c
    ensures forall p | entry <= p < |j| && IsDecision(j[p]) :: j[p].source < c
  {
    assert forall p | |was| <= p < |j| :: j[p] == j[|was|..][p - |was|];
  }

  /** Recorders' lines leave every fact about own outputs and completeness in place. */
  lemma Grown(was: seq<Line>, j: seq<Line>, entry: nat, c: nat)
    requires was <= j && Recorders(j[|was|..]) && entry <= |was| && c <= |was|
    requires forall p | entry <= p < |was| && IsDecision(was[p]) :: was[p].source < c
    requires Complete(was, c, |was|)
    ensures forall p | entry <= p < |j| && IsDecision(j[p]) :: j[p].source < c
    ensures Complete(j, c, |j|)
  {
    OwnOutputsGrow(was, j, entry, c);
    CompleteIsStable(was, j[|was|..], c, |was|);
    assert was + j[|was|..] == j;
  }

  lemma TrustedStart(j: seq<Line>, trusted: Option<Proof>)
    requires trusted.Some? ==> Holds(j, trusted.value)
    ensures Complete(j, if trusted.Some? then trusted.value.frontier else 0, |j|)
  {
    if trusted.Some? {
      CompleteMonotone(j, trusted.value.frontier, trusted.value.frontier, trusted.value.outputEnd, |j|);
    }
  }

  lemma NoInputsComplete(j: seq<Line>, start: nat, target: nat)
    requires Complete(j, start, |j|) && !HasInputs(j, start, target) && target <= |j|
    ensures Complete(j, target, |j|)
  {}

  lemma Trusts(was: seq<Line>, j: seq<Line>, trusted: Option<Proof>)
    requires was <= j && (trusted.Some? ==> Holds(was, trusted.value))
    ensures trusted.Some? ==> Holds(j, trusted.value)
  {
    if trusted.Some? {
      ProofIsStable(was, j[|was|..], trusted.value);
      assert was + j[|was|..] == j;
    }
  }

  /** The outputs of the inputs of `[start, upto)`: unanswered ones before the target, all of them, in order. */
  ghost predicate OutputsFor(j: seq<Line>, start: nat, target: nat, outputs: seq<Line>, upto: nat := target)
    requires upto <= target
  {
    && (forall k | 0 <= k < |outputs| ::
          IsDecision(outputs[k]) && start <= outputs[k].source < upto && Unanswered(j, target, outputs[k].source))
    && (forall k, m | 0 <= k < m < |outputs| :: outputs[k].source < outputs[m].source)
    && (forall i | start <= i < upto && Unanswered(j, target, i) :: OutputOf(outputs, i))
  }

  ghost predicate OutputOf(outputs: seq<Line>, i: nat) { exists k :: 0 <= k < |outputs| && Answers(outputs[k], i) }

  lemma OneMoreOutput(j: seq<Line>, start: nat, target: nat, outputs: seq<Line>, i: nat)
    requires start <= i < target <= |j| && OutputsFor(j, start, target, outputs, i)
    ensures OutputsFor(j, start, target, if Unanswered(j, target, i) then outputs + [Decision(i, true)] else outputs, i + 1)
  {
    if Unanswered(j, target, i) {
      var next := outputs + [Decision(i, true)];
      assert forall k | 0 <= k < |outputs| :: next[k] == outputs[k];
      forall q | start <= q < i + 1 && Unanswered(j, target, q) ensures OutputOf(next, q) {
        OutputStays(outputs, Decision(i, true), q);
      }
    }
  }

  lemma OutputStays(outputs: seq<Line>, l: Line, q: nat)
    ensures OutputOf(outputs, q) || Answers(l, q) ==> OutputOf(outputs + [l], q)
  {
    if OutputOf(outputs, q) {
      var k :| 0 <= k < |outputs| && Answers(outputs[k], q);
      assert Answers((outputs + [l])[k], q);
    } else if Answers(l, q) {
      assert Answers((outputs + [l])[|outputs|], q);
    }
  }

  lemma SomeOutputIff(j: seq<Line>, start: nat, target: nat, outputs: seq<Line>)
    requires OutputsFor(j, start, target, outputs)
    ensures outputs != [] <==> AnyUnanswered(j, start, target)
  {
    if outputs != [] {
      assert start <= outputs[0].source < target && Unanswered(j, target, outputs[0].source);
    } else {
      assert forall i | start <= i < target && Unanswered(j, target, i) :: OutputOf(outputs, i);
    }
  }

  /** An answer before an end both journals hold is the same in both. */
  lemma SameAnswers(was: seq<Line>, j: seq<Line>, bound: nat, i: nat)
    requires was <= j && bound <= |was|
    ensures Answered(was, bound, i) == Answered(j, bound, i)
    ensures i < |was| ==> Unanswered(was, bound, i) == Unanswered(j, bound, i)
  {
    if Answered(was, bound, i) {
      var p :| i < p < bound && p < |was| && Answers(was[p], i);
      assert Answers(j[p], i);
    }
    if Answered(j, bound, i) {
      var p :| i < p < bound && p < |j| && Answers(j[p], i);
      assert Answers(was[p], i);
    }
  }

  /** What a window appends behind the recorders' lines fills it. */
  lemma WindowFills(was: seq<Line>, j: seq<Line>, outputs: seq<Line>, start: nat, target: nat)
    requires was <= j && Recorders(j[|was|..]) && start <= target <= |was| && OutputsFor(was, start, target, outputs)
    ensures Fills(was, j + outputs, start, target)
  {
    var all := j + outputs;
    assert forall p | |was| <= p < |j| :: all[p] == j[|was|..][p - |was|];
    assert forall p | |j| <= p < |all| :: all[p] == outputs[p - |j|];
    forall p | |was| <= p < |all| && IsDecision(all[p])
      ensures p >= |j| && start <= all[p].source < target && Unanswered(all, target, all[p].source)
    {
      assert p >= |j|;
      SameAnswers(was, all, target, all[p].source);
    }
    forall i | start <= i < target && Unanswered(was, target, i)
      ensures exists p :: |was| <= p < |all| && Answers(all[p], i)
    {
      var k :| 0 <= k < |outputs| && Answers(outputs[k], i);
      assert Answers(all[|j| + k], i);
    }
  }

  lemma RecordersDecideNothing(was: seq<Line>, j: seq<Line>)
    requires was <= j && Recorders(j[|was|..])
    ensures Undecided(was, j)
  {
    assert forall p | |was| <= p < |j| :: j[p] == j[|was|..][p - |was|];
  }

  lemma StillUndecided(was: seq<Line>, mid: seq<Line>, j: seq<Line>)
    requires Undecided(was, mid) && Undecided(mid, j)
    ensures Undecided(was, j)
  {
    assert forall p | 0 <= p < |mid| :: j[p] == mid[p];
  }

  /** Recorders' lines gain no decision. */
  lemma RecordersGainNothing(was: seq<Line>, mid: seq<Line>, j: seq<Line>, start: nat, bound: nat)
    requires Gained(was, mid, start, bound) && bound <= |mid| && mid <= j && Recorders(j[|mid|..])
    ensures Gained(was, j, start, bound)
  {
    assert forall p | |mid| <= p < |j| :: j[p] == j[|mid|..][p - |mid|];
    forall p | |was| <= p < |j| && IsDecision(j[p]) ensures p < |mid| && start <= j[p].source && Unanswered(j, bound, j[p].source) {
      assert p < |mid| && j[p] == mid[p];
      SameAnswers(mid, j, bound, j[p].source);
    }
  }

  lemma SameWindow(was: seq<Line>, j: seq<Line>, lo: nat, hi: nat)
    requires was <= j && hi <= |was|
    ensures HasInputs(was, lo, hi) == HasInputs(j, lo, hi) && HasDecisions(was, lo, hi) == HasDecisions(j, lo, hi)
  {
    assert forall p | 0 <= p < |was| :: j[p] == was[p];
    if HasInputs(j, lo, hi) {
      var i :| lo <= i < hi && i < |j| && IsInput(j[i]);
      assert IsInput(was[i]);
    }
    if HasDecisions(j, lo, hi) {
      var p :| lo <= p < hi && p < |j| && IsDecision(j[p]);
      assert IsDecision(was[p]);
    }
    if HasInputs(was, lo, hi) {
      var i :| lo <= i < hi && i < |was| && IsInput(was[i]);
      assert IsInput(j[i]);
    }
    if HasDecisions(was, lo, hi) {
      var p :| lo <= p < hi && p < |was| && IsDecision(was[p]);
      assert IsDecision(j[p]);
    }
  }

  lemma RecordersFirst(was: seq<Line>, mid: seq<Line>, j: seq<Line>, start: nat, bound: nat)
    requires was <= mid && Recorders(mid[|was|..]) && Gained(mid, j, start, bound)
    ensures Gained(was, j, start, bound)
  {
    assert forall p | |was| <= p < |mid| :: mid[p] == mid[|was|..][p - |was|];
    assert forall p | 0 <= p < |mid| :: j[p] == mid[p];
  }

  /** What is answered before an end stays so. */
  lemma StaysAnswered(was: seq<Line>, j: seq<Line>, start: nat, target: nat)
    requires was <= j && target <= |was|
    ensures AnyUnanswered(was, start, target) <==> AnyUnanswered(j, start, target)
  {
    forall i | start <= i < target ensures Unanswered(was, target, i) == Unanswered(j, target, i) {
      SameAnswers(was, j, target, i);
    }
  }

  /** Two windows in a row, the second up to the whole of what the first left: still no input twice. */
  lemma GainedInTurn(was: seq<Line>, mid: seq<Line>, j: seq<Line>, start: nat, bound: nat, later: nat)
    requires Gained(was, mid, start, bound) && Gained(mid, j, start, later) && bound <= later == |mid| && WellFormed(mid)
    ensures Gained(was, j, start, bound)
  {
    forall p | |was| <= p < |j| && IsDecision(j[p]) ensures start <= j[p].source && Unanswered(j, bound, j[p].source) {
      if p < |mid| {
        SameAnswers(mid, j, bound, j[p].source);
      }
    }
    forall p, q | |was| <= p < q < |j| && IsDecision(j[p]) && IsDecision(j[q]) ensures j[p].source != j[q].source {
      if p < |mid| <= q {
        assert Unanswered(j, later, j[q].source) && mid[p] == j[p];
        assert Answers(j[p], j[p].source) && j[p].source < p;
      }
    }
  }

  /** A round's outputs answer every gap of its window. */
  lemma WindowDone(was: seq<Line>, j: seq<Line>, outputs: seq<Line>, start: nat, target: nat, entry: nat)
    requires WellFormed(j) && was <= j && Recorders(j[|was|..]) && start <= target <= |was| && entry <= |was|
    requires Complete(was, start, |was|) && OutputsFor(was, start, target, outputs)
    requires forall p | entry <= p < |was| && IsDecision(was[p]) :: was[p].source < target
    ensures WellFormed(j + outputs) && Complete(j + outputs, target, |j + outputs|)
    ensures forall p | entry <= p < |j + outputs| && IsDecision((j + outputs)[p]) :: (j + outputs)[p].source < target
  {
    var all := j + outputs;
    OwnOutputsGrow(was, j, entry, target);
    assert forall p | |j| <= p < |all| :: all[p] == outputs[p - |j|];
    forall i | 0 <= i < target && IsInput(all[i]) && all[i].derives ensures Answered(all, |all|, i) {
      if i < start || Answered(was, target, i) {
        var p :| i < p < |was| && Answers(was[p], i);
        assert Answers(all[p], i);
      } else {
        assert Unanswered(was, target, i);
        var k :| 0 <= k < |outputs| && Answers(outputs[k], i);
        assert Answers(all[|j| + k], i);
      }
    }
  }
}
