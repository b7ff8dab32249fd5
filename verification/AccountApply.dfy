/**
Applying an operator attribution: preview, apply and recovery over the journal, the cache's derived
table, the stats index and the projection certificate, with a crash possible between any two of them.

One command works for one account. The window groups its range selects are given with the evidence the
planner reads, other accounts' claims included; the account's own claims come from the derived table.
*/
module AccountApply {
  type Key = string

  datatype Mode = AttributeMode | RetractMode

  /**
  A selected group: what native evidence and spend say about it, and how many other accounts hold an active
  assertion that resolves to it.
  */
  datatype Group = Group(key: Key, nativeSame: bool, nativeOther: bool, foreign: nat,
                         spendConflict: bool, partialGroup: bool, outOfScope: bool)

  /** The command: `groups` are what its range selects, `inRange` the assertions a retraction reaches. */
  datatype Command = Command(mode: Mode, groups: seq<Group>, inRange: set<Key>)

  datatype Op = Assert(key: Key) | Retract(target: nat)

  /**
  The store. A journal op is named by its position; `active` and `landed` are the derived table and its
  cursor, `revision` the table's semantic revision, `certificate` the revision the projection was
  computed at, `stats` how far the stats index consumed the journal.
  */
  datatype Store = Store(journal: seq<Op>, active: set<nat>, landed: nat, revision: nat, stats: nat, certificate: nat)

  datatype Disposition = Refused | NoOp | Eligible
  datatype Entry = Entry(key: Key, disposition: Disposition, blocks: bool, asserted: bool)
  datatype Plan = Groups(entries: seq<Entry>) | Retractions(targets: seq<nat>)
  datatype Status = Empty | RefusedStatus | NoOpStatus | Preview | Applied | Recovered | Conflict | Interrupted

  /** Where a run stops: nowhere, after some appended lines, or before a later commit. */
  datatype Stop = Never | InAppend(lines: nat) | BeforeCacheCommit | BeforeStats | BeforeProjection

  /******* The derived table *******/

  function ActiveAt(j: seq<Op>, n: nat): set<nat>
    requires n <= |j|
  {
    if n == 0 then {} else
      match j[n - 1]
      case Assert(_) => ActiveAt(j, n - 1) + {n - 1}
      case Retract(t) => ActiveAt(j, n - 1) - {t}
  }

  /** Replay one op; the revision moves only when a row did. */
  function LandOp(s: Store): Store
    requires s.landed < |s.journal|
  {
    match s.journal[s.landed]
    case Assert(_) => s.(active := s.active + {s.landed}, revision := s.revision + 1, landed := s.landed + 1)
    case Retract(t) =>
      if t in s.active then s.(active := s.active - {t}, revision := s.revision + 1, landed := s.landed + 1)
      else s.(landed := s.landed + 1)
  }

  /** Reconcile the derived table's tail from the journal. */
  function Rehydrate(s: Store): (t: Store)
    requires s.landed <= |s.journal|
    ensures t.journal == s.journal && t.stats == s.stats && t.certificate == s.certificate && t.landed == |t.journal|
    decreases |s.journal| - s.landed
  {
    if s.landed == |s.journal| then s else Rehydrate(LandOp(s))
  }

  /******* The plan *******/

  predicate Owned(s: Store, key: Key)
  {
    exists p :: p in s.active && p < |s.journal| && s.journal[p] == Assert(key)
  }

  /** Native evidence wins over every assertion, and an out-of-scope group consults none. */
  predicate Suppressed(g: Group) { g.nativeSame || g.nativeOther || g.outOfScope }

  /** The account's own assertion is the only claim: it owns the group. */
  predicate OwnResolved(s: Store, g: Group) { !Suppressed(g) && g.foreign == 0 && Owned(s, g.key) }

  /** One other account's assertion is the only claim. */
  predicate ForeignOwns(s: Store, g: Group) { !Suppressed(g) && g.foreign == 1 && !Owned(s, g.key) }

  /** Two accounts' assertions claim the group: neither applies, and the group has no owner. */
  predicate Contested(s: Store, g: Group) { !Suppressed(g) && (g.foreign >= 2 || (g.foreign == 1 && Owned(s, g.key))) }

  predicate EvidenceBlocks(g: Group) { g.partialGroup || g.nativeOther || g.spendConflict }

  predicate Blocks(s: Store, g: Group) { EvidenceBlocks(g) || ForeignOwns(s, g) }

  function EntryOf(s: Store, g: Group): Entry {
    var asserted := OwnResolved(s, g);
    Entry(g.key,
          if Blocks(s, g) || g.outOfScope then Refused else if g.nativeSame || asserted then NoOp else Eligible,
          Blocks(s, g), asserted)
  }

  function PlanGroups(s: Store, groups: seq<Group>): (entries: seq<Entry>)
    ensures |entries| == |groups| && forall i | 0 <= i < |groups| :: entries[i] == EntryOf(s, groups[i])
  {
    seq(|groups|, i requires 0 <= i < |groups| => EntryOf(s, groups[i]))
  }

  /** The active assertions the range reaches, oldest first. */
  function PlanRetractions(s: Store, inRange: set<Key>, n: nat): seq<nat>
    requires n <= |s.journal|
  {
    if n == 0 then [] else
      PlanRetractions(s, inRange, n - 1)
      + if n - 1 in s.active && s.journal[n - 1].Assert? && s.journal[n - 1].key in inRange then [n - 1] else []
  }

  function PlanOf(s: Store, c: Command): Plan {
    if c.mode.RetractMode? then Retractions(PlanRetractions(s, c.inRange, |s.journal|)) else Groups(PlanGroups(s, c.groups))
  }

  predicate PlanBlocks(p: Plan) { p.Groups? && exists i :: 0 <= i < |p.entries| && p.entries[i].blocks }
  predicate HasEligible(p: Plan) { p.Groups? && exists i :: 0 <= i < |p.entries| && p.entries[i].disposition.Eligible? }

  function StatusOf(p: Plan): Status {
    if (if p.Groups? then p.entries == [] else p.targets == []) then Empty
    else if PlanBlocks(p) then RefusedStatus
    else if p.Groups? && !HasEligible(p) then NoOpStatus
    else Preview
  }

  /** Every group the earlier plan wanted is now a no-op by this account's own assertion. */
  predicate IsRecovery(previous: Plan, current: Plan) {
    && previous.Groups? && current.Groups? && HasEligible(previous)
    && forall i | 0 <= i < |previous.entries| && previous.entries[i].disposition.Eligible? ::
         exists k :: 0 <= k < |current.entries| && current.entries[k].key == previous.entries[i].key
                     && current.entries[k].disposition.NoOp? && current.entries[k].asserted
  }

  function EligibleOps(entries: seq<Entry>, n: nat): seq<Op>
    requires n <= |entries|
  {
    if n == 0 then [] else
      EligibleOps(entries, n - 1) + if entries[n - 1].disposition.Eligible? then [Assert(entries[n - 1].key)] else []
  }

  function RetractOps(targets: seq<nat>): seq<Op> {
    if targets == [] then [] else RetractOps(targets[..|targets| - 1]) + [Retract(targets[|targets| - 1])]
  }

  /** One op per group, never a whole range. */
  function Records(p: Plan): seq<Op> {
    if p.Groups? then EligibleOps(p.entries, |p.entries|) else RetractOps(p.targets)
  }

  /** Whether the locked revalidation lets the apply append, and what. */
  function Verdict(planned: Plan, current: Plan): Status {
    if IsRecovery(planned, current) then Recovered
    else if current != planned then Conflict
    else if PlanBlocks(current) then RefusedStatus
    else Applied
  }

  /** The append and the commits that follow it, from a landed tail and the plan revalidated there. */
  function Commit(s: Store, records: seq<Op>, recovered: bool, stop: Stop): (r: (Store, Status))
    requires s.landed <= |s.journal|
    ensures r.0.landed <= |r.0.journal|
    ensures stop.Never? ==> r.0.journal == s.journal + records && r.0.landed == |r.0.journal|
  {
    if stop.InAppend? && stop.lines < |records| then (s.(journal := s.journal + records[..stop.lines]), Interrupted)
    else
      var s2 := s.(journal := s.journal + records);
      if stop.BeforeCacheCommit? then (s2, Interrupted)
      else
        var s3 := Rehydrate(s2);
        if stop.BeforeStats? then (s3, Interrupted)
        else
          var s4 := s3.(stats := |s3.journal|);
          if stop.BeforeProjection? then (s4, Interrupted)
          else (s4.(certificate := s4.revision), if recovered && records == [] then Recovered else Applied)
  }

  /** The apply step, under its locks, stopping where `stop` says. */
  function Apply(s: Store, planned: Plan, c: Command, completion: bool, stop: Stop): (r: (Store, Status))
    requires s.landed <= |s.journal|
    ensures r.0.landed <= |r.0.journal|
  {
    var s1 := Rehydrate(s);
    var current := PlanOf(s1, c);
    var verdict := Verdict(planned, current);
    if verdict.Conflict? || verdict.RefusedStatus? then (s1, verdict)
    else Commit(s1, Records(current), verdict.Recovered? || completion, stop)
  }

  predicate TailPending(s: Store) { s.certificate != s.revision }

  /** One `--yes` run on an otherwise unchanged store. */
  function Run(s: Store, c: Command, stop: Stop): (r: (Store, Status))
    requires s.landed <= |s.journal|
    ensures r.0.landed <= |r.0.journal|
  {
    var planned := PlanOf(s, c);
    var completion := TailPending(s);
    var status := StatusOf(planned);
    if !status.RefusedStatus? && (status.Preview? || completion) then Apply(s, planned, c, completion, stop)
    else (s, status)
  }

  /******* What the plan says, flag by flag *******/

  /** The account's own active assertion names the group. */
  ghost predicate Claimed(s: Store, g: Group) { exists p :: p in s.active && p < |s.journal| && s.journal[p] == Assert(g.key) }

  /** Whether a group refuses the whole apply: for its evidence, or because one other account alone owns it. */
  ghost predicate RefusesAll(s: Store, g: Group) {
    || g.partialGroup || g.nativeOther || g.spendConflict
    || (g.foreign == 1 && !g.nativeSame && !g.outOfScope && !Claimed(s, g))
  }

  /** Nothing native, foreign or partial speaks against the group. */
  ghost predicate IsClean(g: Group) {
    !g.partialGroup && !g.nativeOther && !g.spendConflict && !g.outOfScope && !g.nativeSame
  }

  /** Whether the command records a group: nothing speaks against it, and not exactly its own claim for it. */
  ghost predicate Wants(s: Store, g: Group) {
    IsClean(g) && if Claimed(s, g) then g.foreign != 0 else g.foreign != 1
  }

  /** Whether its own assertion already decides a group, with nothing against it. */
  ghost predicate OwnsAlready(s: Store, g: Group) {
    IsClean(g) && g.foreign == 0 && Claimed(s, g)
  }

  lemma EntryIs(s: Store, g: Group)
    ensures var e := EntryOf(s, g);
            && e.key == g.key && (e.blocks <==> RefusesAll(s, g))
            && (e.disposition.Refused? <==> RefusesAll(s, g) || g.outOfScope)
            && (e.disposition.Eligible? <==> Wants(s, g))
            && (e.disposition.NoOp? && e.asserted <==> OwnsAlready(s, g))
            && (e.asserted <==> g.foreign == 0 && Claimed(s, g) && !g.nativeSame && !g.nativeOther && !g.outOfScope)
  {}

  /** The preview's status, off the selected groups. */
  lemma StatusIs(s: Store, c: Command)
    requires c.mode.AttributeMode?
    ensures var status := StatusOf(PlanOf(s, c));
            && (status.Empty? <==> c.groups == [])
            && (status.RefusedStatus? <==> AnyRefuses(s, c))
            && (status.Preview? <==> AnyWanted(s, c) && !AnyRefuses(s, c))
            && (status.NoOpStatus? <==> c.groups != [] && !AnyWanted(s, c) && !AnyRefuses(s, c))
  {
    var p := PlanOf(s, c);
    forall i | 0 <= i < |c.groups|
      ensures p.entries[i].blocks <==> RefusesAll(s, c.groups[i])
      ensures p.entries[i].disposition.Eligible? <==> Wants(s, c.groups[i])
    {
      EntryIs(s, c.groups[i]);
    }
    assert PlanBlocks(p) <==> AnyRefuses(s, c);
    assert HasEligible(p) <==> AnyWanted(s, c);
  }

  ghost predicate AnyRefuses(s: Store, c: Command) { exists i :: 0 <= i < |c.groups| && RefusesAll(s, c.groups[i]) }

  ghost predicate AnyWanted(s: Store, c: Command) { exists i :: 0 <= i < |c.groups| && Wants(s, c.groups[i]) }

  /** A retraction is empty exactly when its range reaches no active assertion, and never refused. */
  lemma RetractionStatusIs(s: Store, c: Command)
    requires c.mode.RetractMode?
    ensures StatusOf(PlanOf(s, c)) == if AnyReached(s, c) then Preview else Empty
  {
    var targets := PlanRetractions(s, c.inRange, |s.journal|);
    PlanRetractionsAre(s, c.inRange, |s.journal|);
    if AnyReached(s, c) {
      var p: nat :| p < |s.journal| && Reached(s, c, p);
      assert p in targets;
    }
    if targets != [] {
      assert targets[0] in targets;
      assert Reached(s, c, targets[0]);
    }
  }

  ghost predicate AnyReached(s: Store, c: Command) { exists p :: 0 <= p < |s.journal| && Reached(s, c, p) }

  ghost predicate Reached(s: Store, c: Command, p: nat)
    requires p < |s.journal|
  {
    p in s.active && s.journal[p].Assert? && s.journal[p].key in c.inRange
  }

  /** A group the range covers in part, with another account's evidence or with foreign spend: nothing is touched. */
  lemma FlaggedGroupRefuses(s: Store, c: Command, stop: Stop, i: nat)
    requires s.landed <= |s.journal| && c.mode.AttributeMode? && i < |c.groups|
    requires c.groups[i].partialGroup || c.groups[i].nativeOther || c.groups[i].spendConflict
    ensures Run(s, c, stop) == (s, RefusedStatus)
  {
    StatusIs(s, c);
    assert RefusesAll(s, c.groups[i]);
  }

  /** Every assertion a run appends, wherever it stops, is of a selected group with no flag against it. */
  lemma AppendedAreClean(s: Store, c: Command, stop: Stop, p: nat)
    requires Consistent(s) && DistinctGroups(c)
    requires |s.journal| <= p < |Run(s, c, stop).0.journal| && Run(s, c, stop).0.journal[p].Assert?
    ensures c.mode.AttributeMode? && SelectsClean(c, Run(s, c, stop).0.journal[p].key)
  {
    var ops := RunAppends(s, c, stop);
    var op := ops[p - |s.journal|];
    assert OwnOp(Rehydrate(s), c, op);
    var i :| 0 <= i < |c.groups| && Recordable(Rehydrate(s), c.groups[i], op.key);
    assert IsClean(c.groups[i]);
  }

  ghost predicate SelectsClean(c: Command, key: Key) {
    exists i :: 0 <= i < |c.groups| && c.groups[i].key == key && IsClean(c.groups[i])
  }

  /** When the locked revalidation reads as a recovery: all that was wanted is now owned by its own assertion alone. */
  lemma RecoveryIff(s: Store, c: Command, later: Store, c': Command)
    ensures IsRecovery(PlanOf(s, c), PlanOf(later, c')) <==>
              && c.mode.AttributeMode? && c'.mode.AttributeMode?
              && AnyWanted(s, c)
              && forall i | 0 <= i < |c.groups| && Wants(s, c.groups[i]) :: OwnsOneOf(later, c', c.groups[i].key)
  {
    var p, q := PlanOf(s, c), PlanOf(later, c');
    if c.mode.AttributeMode? && c'.mode.AttributeMode? {
      forall i | 0 <= i < |c.groups|
        ensures p.entries[i].key == c.groups[i].key && (p.entries[i].disposition.Eligible? <==> Wants(s, c.groups[i]))
      {
        EntryIs(s, c.groups[i]);
      }
      forall k | 0 <= k < |c'.groups|
        ensures q.entries[k].key == c'.groups[k].key
        ensures q.entries[k].disposition.NoOp? && q.entries[k].asserted <==> OwnsAlready(later, c'.groups[k])
      {
        EntryIs(later, c'.groups[k]);
      }
      forall i | 0 <= i < |c.groups|
        ensures OwnsOneOf(later, c', c.groups[i].key) <==>
                  exists k :: 0 <= k < |q.entries| && q.entries[k].key == p.entries[i].key
                              && q.entries[k].disposition.NoOp? && q.entries[k].asserted
      {
        OwnedEntry(later, c', c.groups[i].key);
      }
    }
  }

  ghost predicate OwnsOneOf(s: Store, c: Command, key: Key) {
    exists k :: 0 <= k < |c.groups| && c.groups[k].key == key && OwnsAlready(s, c.groups[k])
  }

  lemma OwnedEntry(s: Store, c: Command, key: Key)
    requires c.mode.AttributeMode?
    ensures OwnsOneOf(s, c, key) <==>
              exists k :: 0 <= k < |PlanOf(s, c).entries| && PlanOf(s, c).entries[k].key == key
                          && PlanOf(s, c).entries[k].disposition.NoOp? && PlanOf(s, c).entries[k].asserted
  {
    var p := PlanOf(s, c);
    forall k | 0 <= k < |c.groups|
      ensures p.entries[k].key == c.groups[k].key
      ensures p.entries[k].disposition.NoOp? && p.entries[k].asserted <==> OwnsAlready(s, c.groups[k])
    {
      EntryIs(s, c.groups[k]);
    }
    if OwnsOneOf(s, c, key) {
      var k :| 0 <= k < |c.groups| && c.groups[k].key == key && OwnsAlready(s, c.groups[k]);
      assert p.entries[k].disposition.NoOp?;
    }
    if exists k :: 0 <= k < |p.entries| && p.entries[k].key == key && p.entries[k].disposition.NoOp? && p.entries[k].asserted {
      var k :| 0 <= k < |p.entries| && p.entries[k].key == key && p.entries[k].disposition.NoOp? && p.entries[k].asserted;
      assert OwnsAlready(s, c.groups[k]);
    }
  }

  /** Whether the stop falls inside an apply of `n` lines. */
  ghost predicate Cuts(stop: Stop, n: nat) {
    stop.BeforeCacheCommit? || stop.BeforeStats? || stop.BeforeProjection? || (stop.InAppend? && stop.lines < n)
  }

  /**
  What the apply step reports. A drifted plan is a conflict and a blocking one refused, neither when the change
  reads as a recovery, and both leave the store landed; an apply that is not cut short is a recovery exactly when
  it had one to make and appended nothing.
  */
  lemma ApplyReports(s: Store, planned: Plan, c: Command, completion: bool, stop: Stop)
    requires s.landed <= |s.journal|
    ensures var current := PlanOf(Rehydrate(s), c);
            var r := Apply(s, planned, c, completion, stop);
            var recovers := IsRecovery(planned, current);
            var proceeds := recovers || (current == planned && !PlanBlocks(current));
            var records := Records(current);
            && (r.1.Conflict? <==> !recovers && current != planned)
            && (r.1.RefusedStatus? <==> !recovers && current == planned && PlanBlocks(current))
            && (!proceeds ==> r.0 == Rehydrate(s))
            && (r.1.Interrupted? <==> proceeds && Cuts(stop, |records|))
            && (r.1.Recovered? <==> proceeds && !Cuts(stop, |records|) && records == [] && (recovers || completion))
            && (r.1.Applied? <==> proceeds && !Cuts(stop, |records|) && !(records == [] && (recovers || completion)))
  {
    var s1 := Rehydrate(s);
    var current := PlanOf(s1, c);
    var verdict := Verdict(planned, current);
    VerdictIs(planned, current);
    CommitReports(s1, Records(current), verdict.Recovered? || completion, stop);
  }

  lemma VerdictIs(planned: Plan, current: Plan)
    ensures var v := Verdict(planned, current);
            && (v.Conflict? <==> !IsRecovery(planned, current) && current != planned)
            && (v.RefusedStatus? <==> !IsRecovery(planned, current) && current == planned && PlanBlocks(current))
            && (v.Recovered? <==> IsRecovery(planned, current))
  {}

  lemma CommitReports(s: Store, records: seq<Op>, recovered: bool, stop: Stop)
    requires s.landed <= |s.journal|
    ensures var status := Commit(s, records, recovered, stop).1;
            && (status.Interrupted? <==> Cuts(stop, |records|))
            && (status.Recovered? <==> !Cuts(stop, |records|) && records == [] && recovered)
            && (status.Applied? <==> !Cuts(stop, |records|) && !(records == [] && recovered))
  {}

  /** Where a run over a landed store with something to do stops, store by store. */
  lemma StopsWhere(s: Store, c: Command, stop: Stop)
    requires Recoverable(s, c) && Unblocked(s, c) && s.landed == |s.journal|
    requires StatusOf(PlanOf(s, c)).Preview? || s.certificate != s.revision
    ensures var ops := Records(PlanOf(s, c));
            var j := s.journal + ops;
            var t := Run(s, c, stop).0;
            match stop
            case InAppend(lines) => t == if lines < |ops| then s.(journal := s.journal + ops[..lines])
                                         else Store(j, ActiveAt(j, |j|), |j|, |j|, |j|, |j|)
            case BeforeCacheCommit => t == s.(journal := j)
            case BeforeStats => t == Store(j, ActiveAt(j, |j|), |j|, |j|, s.stats, s.certificate)
            case BeforeProjection => t == Store(j, ActiveAt(j, |j|), |j|, |j|, |j|, s.certificate)
            case Never => t == Store(j, ActiveAt(j, |j|), |j|, |j|, |j|, |j|)
  {
    var ops := Records(PlanOf(s, c));
    RunCommits(s, c, stop);
    CommitStops(s, ops, TailPending(s), stop);
    RecordsAreOwn(s, c);
    AppendStaysRecoverable(s, c, ops);
    RehydrateLands(s.(journal := s.journal + ops));
  }

  lemma RunCommits(s: Store, c: Command, stop: Stop)
    requires Recoverable(s, c) && Unblocked(s, c) && s.landed == |s.journal|
    requires StatusOf(PlanOf(s, c)).Preview? || s.certificate != s.revision
    ensures Run(s, c, stop) == Commit(s, Records(PlanOf(s, c)), TailPending(s), stop)
  {
    NoSelfRecovery(s, c);
    assert Rehydrate(s) == s;
    assert !PlanBlocks(PlanOf(s, c));
  }

  lemma CommitStops(s: Store, records: seq<Op>, recovered: bool, stop: Stop)
    requires s.landed <= |s.journal|
    ensures var written := s.(journal := s.journal + records);
            var landed := Rehydrate(written);
            var indexed := landed.(stats := |landed.journal|);
            Commit(s, records, recovered, stop).0 ==
              match stop
              case InAppend(lines) =>
                if lines < |records| then s.(journal := s.journal + records[..lines]) else indexed.(certificate := indexed.revision)
              case BeforeCacheCommit => written
              case BeforeStats => landed
              case BeforeProjection => indexed
              case Never => indexed.(certificate := indexed.revision)
  {}

  /******* Blocking groups *******/

  /** A blocking group in the preview: the command touches nothing at all. */
  lemma BlockedPreviewChangesNothing(s: Store, c: Command, stop: Stop)
    requires s.landed <= |s.journal| && PlanBlocks(PlanOf(s, c))
    ensures Run(s, c, stop) == (s, RefusedStatus)
  {}

  /**
  A blocking group the locked revalidation meets, when the store changed since the preview: the apply
  appends nothing, EXCEPT exactly when it takes the change for a recovery and a group is newly eligible.
  */
  lemma BlockedApplyAppends(s: Store, planned: Plan, c: Command, completion: bool)
    requires s.landed <= |s.journal|
    ensures var current := PlanOf(Rehydrate(s), c);
            PlanBlocks(current) ==>
              (Apply(s, planned, c, completion, Never).0.journal != s.journal <==> IsRecovery(planned, current) && HasEligible(current))
  {
    RecordsEmpty(PlanOf(Rehydrate(s), c));
  }

  lemma RecordsEmpty(p: Plan)
    ensures p.Groups? ==> (Records(p) == [] <==> !HasEligible(p))
  {
    if p.Groups? {
      var ops := EligibleOps(p.entries, |p.entries|);
      EligibleOpsAre(p.entries, |p.entries|);
      if ops != [] {
        assert ops[0] in ops;
      } else {
        forall i | 0 <= i < |p.entries| ensures !p.entries[i].disposition.Eligible? {
          assert !AssertsEligible(p.entries, |p.entries|, Assert(p.entries[i].key));
        }
      }
    }
  }

  /** The exception on a concrete store: group `b` blocks, and `h` is recorded all the same. */
  lemma BlockedGroupAppended()
    ensures var g := Group("g", false, false, 0, false, false, false);
            var h := g.(key := "h");
            var b := g.(key := "b", spendConflict := true);
            var s := Store([Assert("g")], {}, 0, 0, 0, 0);
            var c := Command(AttributeMode, [g, h, b], {});
            var planned := PlanOf(s, c.(groups := [g]));
            && PlanBlocks(PlanOf(Rehydrate(s), c))
            && Apply(s, planned, c, TailPending(s), Never).0.journal == [Assert("g"), Assert("h")]
  {
    var g := Group("g", false, false, 0, false, false, false);
    var s := Store([Assert("g")], {}, 0, 0, 0, 0);
    var c := Command(AttributeMode, [g, g.(key := "h"), g.(key := "b", spendConflict := true)], {});
    var planned := PlanOf(s, c.(groups := [g]));
    var s1 := Rehydrate(s);
    assert s1 == Store([Assert("g")], {0}, 1, 1, 0, 0);
    var current := PlanOf(s1, c);
    assert Owned(s1, "g") by { assert 0 in s1.active && s1.journal[0] == Assert("g"); }
    assert !Owned(s1, "h");
    assert current.entries[0] == Entry("g", NoOp, false, true);
    assert current.entries[1] == Entry("h", Eligible, false, false);
    assert current.entries[2].blocks && current.entries[2].disposition.Refused?;
    assert planned.entries[0] == Entry("g", Eligible, false, false);
    assert IsRecovery(planned, current);
    assert EligibleOps(current.entries, 1) == [];
    assert EligibleOps(current.entries, 2) == [Assert("h")];
    assert EligibleOps(current.entries, 3) == [Assert("h")];
  }

  /******* Recovery *******/

  /** A group the command may record, as far as native evidence and spend go. */
  predicate Attributable(g: Group) { !EvidenceBlocks(g) && !g.outOfScope && !g.nativeSame }

  /** A group the command may record that another account claims as well. */
  predicate Disputed(g: Group) { Attributable(g) && g.foreign >= 1 }

  ghost predicate Undisputed(c: Command) {
    c.mode.AttributeMode? ==> forall i | 0 <= i < |c.groups| :: !Disputed(c.groups[i])
  }

  /** What every store the command can leave satisfies, however often it stopped on the way. */
  ghost predicate Consistent(s: Store) {
    && s.landed <= |s.journal| && s.stats <= |s.journal|
    && s.active == ActiveAt(s.journal, s.landed)
    && s.revision == s.landed && s.certificate <= s.landed
    && (s.certificate == s.landed ==> s.stats >= s.landed)
    && forall p | 0 <= p < |s.journal| :: RetractsActive(s.journal, p)
  }

  /** A retraction names an op that was active when it was written. */
  ghost predicate RetractsActive(j: seq<Op>, p: nat)
    requires p < |j|
  {
    j[p].Retract? ==> j[p].target in ActiveAt(j, p)
  }

  /** Two ops of `active` that assert one key are one op. */
  ghost predicate OneOp(j: seq<Op>, active: set<nat>, key: Key) {
    forall p, q | p in active && q in active && p < |j| && q < |j| && j[p] == j[q] == Assert(key) :: p == q
  }

  /** The whole journal records no attributable group of an attribution twice. */
  ghost predicate OneEach(j: seq<Op>, c: Command) {
    c.mode.AttributeMode? ==>
      forall i | 0 <= i < |c.groups| && Attributable(c.groups[i]) :: OneOp(j, ActiveAt(j, |j|), c.groups[i].key)
  }

  ghost predicate DistinctGroups(c: Command) {
    forall i, k | 0 <= i < k < |c.groups| :: c.groups[i].key != c.groups[k].key
  }

  /** An op this command writes: an assertion of an unowned or contested attributable group, or a retraction in its range. */
  ghost predicate OwnOp(s: Store, c: Command, op: Op) {
    match op
    case Assert(key) => c.mode.AttributeMode? && exists i :: 0 <= i < |c.groups| && Recordable(s, c.groups[i], key)
    case Retract(t) => c.mode.RetractMode? && t in s.active && t < |s.journal|
                       && s.journal[t].Assert? && s.journal[t].key in c.inRange
  }

  /** The planner finds the group of this key eligible. */
  predicate Recordable(s: Store, g: Group, key: Key) {
    g.key == key && Attributable(g) && (Contested(s, g) || (g.foreign == 0 && !Owned(s, key)))
  }

  /** Lines the derived table has not landed are this command's own. */
  ghost predicate PendingIsOwn(s: Store, c: Command)
    requires s.landed <= |s.journal|
  {
    forall p | s.landed <= p < |s.journal| :: OwnOp(s, c, s.journal[p])
  }

  ghost predicate Recoverable(s: Store, c: Command) {
    Consistent(s) && DistinctGroups(c) && PendingIsOwn(s, c)
  }

  /** Journal, derived table, stats index and projection certificate agree. */
  ghost predicate Agree(s: Store) {
    s.landed == |s.journal| && s.active == ActiveAt(s.journal, |s.journal|) && s.stats == |s.journal| && s.certificate == s.revision
  }

  /** Each attributable group is recorded, or no reached assertion is left. */
  ghost predicate Recorded(s: Store, c: Command) {
    if c.mode.AttributeMode? then forall i | 0 <= i < |c.groups| && Attributable(c.groups[i]) :: Owned(s, c.groups[i].key)
    else forall p | p in s.active && p < |s.journal| && s.journal[p].Assert? :: s.journal[p].key !in c.inRange
  }

  /** The command's goal: each attributable group recorded by exactly one op, or no reached assertion left. */
  ghost predicate Done(s: Store, c: Command) {
    && Recorded(s, c)
    && (c.mode.AttributeMode? ==> forall i | 0 <= i < |c.groups| && Attributable(c.groups[i]) :: OneOp(s.journal, s.active, c.groups[i].key))
  }

  lemma {:induction false} ActiveAreAsserts(j: seq<Op>, n: nat)
    requires n <= |j|
    ensures forall p | p in ActiveAt(j, n) :: p < n && j[p].Assert?
  {
    if n > 0 { ActiveAreAsserts(j, n - 1); }
  }

  /** An assertion is active from its line on until a later line retracts it. */
  lemma {:induction false} ActiveIs(j: seq<Op>, n: nat, p: nat)
    requires n <= |j|
    ensures p in ActiveAt(j, n) <==> p < n && j[p].Assert? && forall q | p < q < n :: j[q] != Retract(p)
  {
    if n > 0 { ActiveIs(j, n - 1, p); }
  }

  lemma {:induction false} ActivePrefix(j: seq<Op>, more: seq<Op>, n: nat)
    requires n <= |j|
    ensures ActiveAt(j + more, n) == ActiveAt(j, n)
  {
    if n > 0 { ActivePrefix(j, more, n - 1); }
  }

  lemma RehydrateLands(s: Store)
    requires Consistent(s)
    ensures Rehydrate(s) == s.(active := ActiveAt(s.journal, |s.journal|), landed := |s.journal|, revision := |s.journal|)
    ensures Consistent(Rehydrate(s))
  {
    LandsFrom(s);
  }

  lemma {:induction false} LandsFrom(s: Store)
    requires s.landed <= |s.journal| && s.active == ActiveAt(s.journal, s.landed) && s.revision == s.landed
    requires forall p | 0 <= p < |s.journal| :: RetractsActive(s.journal, p)
    ensures Rehydrate(s) == s.(active := ActiveAt(s.journal, |s.journal|), landed := |s.journal|, revision := |s.journal|)
    decreases |s.journal| - s.landed
  {
    if s.landed < |s.journal| {
      assert RetractsActive(s.journal, s.landed);
      LandsFrom(LandOp(s));
    }
  }

  /** `op` asserts one of the first `n` entries, an eligible one. */
  ghost predicate AssertsEligible(entries: seq<Entry>, n: nat, op: Op)
    requires n <= |entries|
  {
    op.Assert? && exists i :: 0 <= i < n && entries[i].disposition.Eligible? && entries[i].key == op.key
  }

  lemma {:induction false} EligibleOpsAre(entries: seq<Entry>, n: nat)
    requires n <= |entries|
    ensures forall op :: op in EligibleOps(entries, n) <==> AssertsEligible(entries, n, op)
  {
    if n > 0 {
      EligibleOpsAre(entries, n - 1);
      var l := EligibleOps(entries, n - 1);
      forall op ensures op in EligibleOps(entries, n) <==> AssertsEligible(entries, n, op) {
        assert op in l <==> AssertsEligible(entries, n - 1, op);
      }
    }
  }

  lemma {:induction false} EligibleOpsDistinct(entries: seq<Entry>, n: nat)
    requires n <= |entries| && forall i, k | 0 <= i < k < |entries| :: entries[i].key != entries[k].key
    ensures forall a, b | 0 <= a < b < |EligibleOps(entries, n)| :: EligibleOps(entries, n)[a] != EligibleOps(entries, n)[b]
  {
    if n > 0 {
      EligibleOpsDistinct(entries, n - 1);
      EligibleOpsAre(entries, n - 1);
      assert !AssertsEligible(entries, n - 1, Assert(entries[n - 1].key));
      var l := EligibleOps(entries, n - 1);
      assert forall a | 0 <= a < |l| :: l[a] in l;
    }
  }

  lemma {:induction false} PlanRetractionsAre(s: Store, inRange: set<Key>, n: nat)
    requires n <= |s.journal|
    ensures forall p: nat :: p in PlanRetractions(s, inRange, n) <==>
              p < n && p in s.active && s.journal[p].Assert? && s.journal[p].key in inRange
    ensures forall a, b | 0 <= a < b < |PlanRetractions(s, inRange, n)| ::
              PlanRetractions(s, inRange, n)[a] < PlanRetractions(s, inRange, n)[b]
  {
    if n > 0 {
      PlanRetractionsAre(s, inRange, n - 1);
      var l := PlanRetractions(s, inRange, n - 1);
      assert forall a | 0 <= a < |l| :: l[a] in l;
    }
  }

  /** The plan's ops in order: one assertion per wanted group, or one retraction per reached assertion, oldest first. */
  lemma RecordsAre(s: Store, c: Command) returns (places: seq<nat>)
    ensures forall a, b | 0 <= a < b < |places| :: places[a] < places[b]
    ensures c.mode.AttributeMode? ==> forall i: nat :: i in places <==> i < |c.groups| && Wants(s, c.groups[i])
    ensures c.mode.RetractMode? ==> forall p: nat :: p in places <==> p < |s.journal| && Reached(s, c, p)
    ensures |Records(PlanOf(s, c))| == |places| && forall k | 0 <= k < |places| :: RecordAt(c, places, k, Records(PlanOf(s, c))[k])
  {
    var plan := PlanOf(s, c);
    if c.mode.AttributeMode? {
      places := EligiblePlaces(s, c, |c.groups|);
    } else {
      places := plan.targets;
      PlanRetractionsAre(s, c.inRange, |s.journal|);
      RetractOpsAre(places);
    }
  }

  ghost predicate RecordAt(c: Command, places: seq<nat>, k: nat, op: Op)
    requires k < |places|
  {
    if c.mode.AttributeMode? then places[k] < |c.groups| && op == Assert(c.groups[places[k]].key) else op == Retract(places[k])
  }

  lemma {:induction false} EligiblePlaces(s: Store, c: Command, n: nat) returns (places: seq<nat>)
    requires c.mode.AttributeMode? && n <= |c.groups|
    ensures forall a, b | 0 <= a < b < |places| :: places[a] < places[b]
    ensures forall i: nat :: i in places <==> i < n && Wants(s, c.groups[i])
    ensures var ops := EligibleOps(PlanOf(s, c).entries, n);
            |ops| == |places| && forall k | 0 <= k < |places| :: RecordAt(c, places, k, ops[k])
  {
    places := [];
    if n > 0 {
      places := EligiblePlaces(s, c, n - 1);
      EntryIs(s, c.groups[n - 1]);
      assert forall a | 0 <= a < |places| :: places[a] in places;
      if Wants(s, c.groups[n - 1]) { places := places + [n - 1]; }
    }
  }

  lemma {:induction false} RetractOpsAre(targets: seq<nat>)
    ensures |RetractOps(targets)| == |targets| && forall k | 0 <= k < |targets| :: RetractOps(targets)[k] == Retract(targets[k])
  {
    if targets != [] { RetractOpsAre(targets[..|targets| - 1]); }
  }

  /** Appending a prefix of the planned records keeps the store recoverable, landed or not. */
  ghost predicate OwnRecords(s: Store, c: Command, ops: seq<Op>)
    requires s.landed <= |s.journal|
  {
    && (forall a, b | 0 <= a < b < |ops| :: ops[a] != ops[b])
    && forall k | 0 <= k < |ops| :: OwnOp(s, c, ops[k])
  }

  lemma RecordsAreOwn(s: Store, c: Command)
    requires s.landed == |s.journal| && DistinctGroups(c)
    ensures OwnRecords(s, c, Records(PlanOf(s, c)))
  {
    var p := PlanOf(s, c);
    if c.mode.RetractMode? {
      PlanRetractionsAre(s, c.inRange, |s.journal|);
      RetractOpsAre(p.targets);
      forall k | 0 <= k < |p.targets| ensures OwnOp(s, c, RetractOps(p.targets)[k]) {
        assert p.targets[k] in p.targets;
      }
    } else {
      var ops := EligibleOps(p.entries, |p.entries|);
      EligibleOpsAre(p.entries, |p.entries|);
      EligibleOpsDistinct(p.entries, |p.entries|);
      forall k | 0 <= k < |ops| ensures OwnOp(s, c, ops[k]) {
        assert ops[k] in ops;
        var i :| 0 <= i < |p.entries| && p.entries[i].disposition.Eligible? && p.entries[i].key == ops[k].key;
        assert p.entries[i] == EntryOf(s, c.groups[i]);
        assert Recordable(s, c.groups[i], ops[k].key);
      }
    }
  }

  ghost predicate Untargeted(ops: seq<Op>, n: nat, p: nat)
    requires n <= |ops|
  {
    forall k | 0 <= k < n :: ops[k] != Retract(p)
  }

  /** What appended own records leave active: every asserted position more, every target less. */
  lemma {:induction false} ActiveAfter(j: seq<Op>, ops: seq<Op>, n: nat, p: nat)
    requires n <= |ops| && forall k | 0 <= k < n && ops[k].Retract? :: ops[k].target < |j|
    ensures p in ActiveAt(j + ops, |j| + n) <==>
              if p < |j| then p in ActiveAt(j, |j|) && Untargeted(ops, n, p)
              else p < |j| + n && ops[p - |j|].Assert?
  {
    if n == 0 {
      ActivePrefix(j, ops, |j|);
      ActiveAreAsserts(j, |j|);
    } else {
      ActiveAfter(j, ops, n - 1, p);
      assert (j + ops)[|j| + n - 1] == ops[n - 1];
      assert Untargeted(ops, n, p) <==> Untargeted(ops, n - 1, p) && ops[n - 1] != Retract(p);
    }
  }

  lemma OwnOpGrows(s: Store, c: Command, ops: seq<Op>, op: Op)
    requires s.active == ActiveAt(s.journal, |s.journal|) && OwnOp(s, c, op)
    ensures OwnOp(s.(journal := s.journal + ops), c, op)
  {
    ActiveAreAsserts(s.journal, |s.journal|);
    var t := s.(journal := s.journal + ops);
    assert forall p | p in s.active :: p < |s.journal| && t.journal[p] == s.journal[p];
    assert forall key :: Owned(t, key) == Owned(s, key);
    if op.Assert? {
      var i :| 0 <= i < |c.groups| && Recordable(s, c.groups[i], op.key);
      assert Recordable(t, c.groups[i], op.key);
    }
  }

  lemma RetractionsStayActive(s: Store, c: Command, ops: seq<Op>)
    requires Consistent(s) && s.landed == |s.journal| && OwnRecords(s, c, ops)
    ensures var j := s.journal + ops;
            forall p | 0 <= p < |j| :: RetractsActive(j, p)
  {
    var j := s.journal + ops;
    forall p | 0 <= p < |j| && j[p].Retract? ensures RetractsActive(j, p) {
      if p < |s.journal| {
        ActivePrefix(s.journal, ops, p);
        assert j[p] == s.journal[p] && RetractsActive(s.journal, p);
      } else {
        var k := p - |s.journal|;
        assert j[p] == ops[k];
        assert ops[k].Retract? && ops[k].target in s.active;
        ActiveAfter(s.journal, ops, k, ops[k].target);
      }
    }
  }

  lemma ActiveAfterAll(j: seq<Op>, ops: seq<Op>, p: nat)
    requires forall k | 0 <= k < |ops| && ops[k].Retract? :: ops[k].target < |j|
    ensures p in ActiveAt(j + ops, |j + ops|) <==>
              if p < |j| then p in ActiveAt(j, |j|) && Untargeted(ops, |ops|, p)
              else p < |j| + |ops| && ops[p - |j|].Assert?
  {
    assert |j + ops| == |j| + |ops|;
    ActiveAfter(j, ops, |ops|, p);
  }

  lemma AppendStaysRecoverable(s: Store, c: Command, ops: seq<Op>)
    requires Recoverable(s, c) && s.landed == |s.journal| && OwnRecords(s, c, ops)
    ensures Recoverable(s.(journal := s.journal + ops), c)
  {
    var t := s.(journal := s.journal + ops);
    ActivePrefix(s.journal, ops, |s.journal|);
    RetractionsStayActive(s, c, ops);
    forall p | t.landed <= p < |t.journal| ensures OwnOp(t, c, t.journal[p]) {
      assert t.journal[p] == ops[p - |s.journal|];
      OwnOpGrows(s, c, ops, ops[p - |s.journal|]);
    }
  }

  /******* One op a group *******/

  /** Without a dispute, own records add no second op for a group that has at most one. */
  lemma AppendKeepsOne(s: Store, c: Command, ops: seq<Op>)
    requires Consistent(s) && s.landed == |s.journal| && OwnRecords(s, c, ops) && Undisputed(c) && DistinctGroups(c)
    requires OneEach(s.journal, c)
    ensures OneEach(s.journal + ops, c)
  {
    if c.mode.AttributeMode? {
      var j := s.journal + ops;
      forall i, p: nat, q: nat | 0 <= i < |c.groups| && Attributable(c.groups[i]) && p in ActiveAt(j, |j|) && q in ActiveAt(j, |j|)
                                 && p < q < |j|
        ensures !(j[p] == j[q] == Assert(c.groups[i].key))
      {
        ActiveAfterAll(s.journal, ops, p);
        ActiveAfterAll(s.journal, ops, q);
        NoSecondOp(s, c, ops, i, p, q);
      }
    }
  }

  /** A new op repeats neither another new one nor one still active. */
  lemma NoSecondOp(s: Store, c: Command, ops: seq<Op>, i: nat, p: nat, q: nat)
    requires s.landed <= |s.journal| && OwnRecords(s, c, ops) && c.mode.AttributeMode? && Undisputed(c) && DistinctGroups(c)
    requires i < |c.groups| && Attributable(c.groups[i]) && OneOp(s.journal, s.active, c.groups[i].key)
    requires p < q < |s.journal| + |ops| && (p < |s.journal| ==> p in s.active) && (q < |s.journal| ==> q in s.active)
    ensures !((s.journal + ops)[p] == (s.journal + ops)[q] == Assert(c.groups[i].key))
  {
    var j, n := s.journal + ops, |s.journal|;
    if q < n {
      assert j[p] == s.journal[p] && j[q] == s.journal[q];
    } else {
      assert j[q] == ops[q - n] && OwnOp(s, c, ops[q - n]);
      if p >= n {
        assert j[p] == ops[p - n];
      } else if ops[q - n].Assert? {
        OwnIsNew(s, c, ops[q - n]);
        assert j[p] == s.journal[p];
      }
    }
  }

  /** Without a dispute, a group this command asserts was not owned. */
  lemma OwnIsNew(s: Store, c: Command, op: Op)
    requires Undisputed(c) && OwnOp(s, c, op) && op.Assert?
    ensures !Owned(s, op.key)
  {
    var k :| 0 <= k < |c.groups| && Recordable(s, c.groups[k], op.key);
    assert !Disputed(c.groups[k]);
  }

  /** What more claims record once, fewer claims did. */
  lemma OneOpShrinks(j: seq<Op>, a: set<nat>, j': seq<Op>, a': set<nat>, key: Key)
    requires j <= j' && a <= a' && OneOp(j', a', key)
    ensures OneOp(j, a, key)
  {
    assert forall p: nat | p < |j| :: j'[p] == j[p];
  }

  /** Where a run can leave the store: after the tail landed, a prefix of its records, or all of them. */
  lemma RunLeaves(s: Store, c: Command, stop: Stop)
    requires Consistent(s)
    ensures var t := Run(s, c, stop).0;
            var s1 := Rehydrate(s);
            var ops := Records(PlanOf(s1, c));
            var s2 := s1.(journal := s1.journal + ops);
            || t == s || t == s1
            || (exists k :: 0 <= k <= |ops| && t == s1.(journal := s1.journal + ops[..k]))
            || t == Rehydrate(s2)
            || t == Rehydrate(s2).(stats := |s2.journal|)
            || t == Rehydrate(s2).(stats := |s2.journal|, certificate := Rehydrate(s2).revision)
  {
    var ops := Records(PlanOf(Rehydrate(s), c));
    assert ops[..|ops|] == ops;
  }

  /** However a run stops, the store stays one this command can recover. */
  lemma EveryStopIsRecoverable(s: Store, c: Command, stop: Stop)
    requires Recoverable(s, c)
    ensures Recoverable(Run(s, c, stop).0, c)
  {
    RunLeaves(s, c, stop);
    RehydrateLands(s);
    var t := Run(s, c, stop).0;
    var s1 := Rehydrate(s);
    var ops := Records(PlanOf(s1, c));
    RecordsAreOwn(s1, c);
    if k :| 0 <= k <= |ops| && t == s1.(journal := s1.journal + ops[..k]) {
      AppendStaysRecoverable(s1, c, ops[..k]);
    } else {
      AppendStaysRecoverable(s1, c, ops);
      RehydrateLands(s1.(journal := s1.journal + ops));
    }
  }

  /** A run leaves two ops for a group where there were two, and only there unless it is disputed. */
  lemma RunKeepsOneEach(s: Store, c: Command, stop: Stop)
    requires Recoverable(s, c)
    ensures OneEach(Run(s, c, stop).0.journal, c) ==> OneEach(s.journal, c)
    ensures Undisputed(c) && OneEach(s.journal, c) ==> OneEach(Run(s, c, stop).0.journal, c)
  {
    RehydrateLands(s);
    var ops := RunAppends(s, c, stop);
    if Undisputed(c) && OneEach(s.journal, c) { AppendKeepsOne(Rehydrate(s), c, ops); }
    AppendDropsNone(Rehydrate(s), c, ops);
  }

  lemma AppendDropsNone(s: Store, c: Command, ops: seq<Op>)
    requires Recoverable(s, c) && s.landed == |s.journal| && OwnRecords(s, c, ops)
    ensures OneEach(s.journal + ops, c) ==> OneEach(s.journal, c)
  {
    if c.mode.AttributeMode? && OneEach(s.journal + ops, c) {
      var j := s.journal + ops;
      AppendStaysRecoverable(s, c, ops);
      LandingOnlyAdds(s.(journal := j), c);
      forall i | 0 <= i < |c.groups| && Attributable(c.groups[i]) ensures OneOp(s.journal, s.active, c.groups[i].key) {
        OneOpShrinks(s.journal, s.active, j, ActiveAt(j, |j|), c.groups[i].key);
      }
    }
  }

  /** What a run appends, wherever it stops: own records, planned over the landed tail. */
  lemma RunAppends(s: Store, c: Command, stop: Stop) returns (ops: seq<Op>)
    requires Consistent(s) && DistinctGroups(c)
    ensures Run(s, c, stop).0.journal == s.journal + ops && OwnRecords(Rehydrate(s), c, ops)
  {
    RunLeaves(s, c, stop);
    RehydrateLands(s);
    RecordsAreOwn(Rehydrate(s), c);
    var t, all := Run(s, c, stop).0, Records(PlanOf(Rehydrate(s), c));
    assert s.journal + [] == s.journal;
    if t.journal == s.journal {
      ops := [];
    } else if t.journal == s.journal + all {
      ops := all;
    } else {
      var k :| 0 <= k <= |all| && t.journal == s.journal + all[..k];
      ops := all[..k];
    }
  }

  /** No group of the attribution blocks it, on this store. */
  ghost predicate Unblocked(s: Store, c: Command) {
    c.mode.AttributeMode? ==> forall i | 0 <= i < |c.groups| :: !Blocks(s, c.groups[i])
  }

  lemma {:induction false} AssertsOnlyAdd(j: seq<Op>, n: nat, m: nat)
    requires n <= m <= |j| && forall p | n <= p < m :: j[p].Assert?
    ensures ActiveAt(j, n) <= ActiveAt(j, m)
  {
    if n < m { AssertsOnlyAdd(j, n, m - 1); }
  }

  /** The attribution only ever adds claims of its own account. */
  lemma LandingOnlyAdds(s: Store, c: Command)
    requires Recoverable(s, c) && c.mode.AttributeMode?
    ensures s.active <= ActiveAt(s.journal, |s.journal|)
  {
    assert forall p | s.landed <= p < |s.journal| :: OwnOp(s, c, s.journal[p]);
    AssertsOnlyAdd(s.journal, s.landed, |s.journal|);
  }

  /** However a run stops, the claims it found are still there, so it unblocks nothing it would refuse later. */
  lemma RunOnlyAdds(s: Store, c: Command, stop: Stop)
    requires Recoverable(s, c) && c.mode.AttributeMode?
    ensures s.active <= Run(s, c, stop).0.active && s.journal <= Run(s, c, stop).0.journal
  {
    RunLeaves(s, c, stop);
    RehydrateLands(s);
    LandingOnlyAdds(s, c);
    var s1 := Rehydrate(s);
    var ops := Records(PlanOf(s1, c));
    RecordsAreOwn(s1, c);
    AppendStaysRecoverable(s1, c, ops);
    var s2 := s1.(journal := s1.journal + ops);
    RehydrateLands(s2);
    LandingOnlyAdds(s2, c);
  }

  lemma UnblockedStays(s: Store, c: Command, stop: Stop)
    requires Recoverable(s, c) && Unblocked(s, c)
    ensures Unblocked(Run(s, c, stop).0, c)
  {
    if c.mode.AttributeMode? {
      RunOnlyAdds(s, c, stop);
      ActiveAreAsserts(s.journal, s.landed);
    }
  }

  /** A plan never recovers from itself. */
  lemma NoSelfRecovery(s: Store, c: Command)
    requires DistinctGroups(c)
    ensures !IsRecovery(PlanOf(s, c), PlanOf(s, c))
  {
    var p := PlanOf(s, c);
    if p.Groups? && HasEligible(p) {
      var i :| 0 <= i < |p.entries| && p.entries[i].disposition.Eligible?;
      forall k | 0 <= k < |p.entries| && k != i ensures p.entries[k].key != p.entries[i].key {
        assert c.groups[k].key != c.groups[i].key;
      }
    }
  }

  /** Pending lines are always seen: the preview has something to apply. */
  lemma PendingIsPreviewed(s: Store, c: Command)
    requires Recoverable(s, c) && s.landed < |s.journal| && Unblocked(s, c)
    ensures StatusOf(PlanOf(s, c)).Preview?
  {
    var op := s.journal[s.landed];
    assert OwnOp(s, c, op);
    var p := PlanOf(s, c);
    if op.Assert? {
      var i :| 0 <= i < |c.groups| && Recordable(s, c.groups[i], op.key);
      assert p.entries[i] == EntryOf(s, c.groups[i]) && p.entries[i].disposition.Eligible?;
    } else {
      PlanRetractionsAre(s, c.inRange, |s.journal|);
      assert op.target in p.targets;
    }
  }

  /** After one uninterrupted run nothing is pending. */
  lemma FirstRerunLands(s: Store, c: Command)
    requires Recoverable(s, c) && Unblocked(s, c)
    ensures Recoverable(Run(s, c, Never).0, c)
    ensures Run(s, c, Never).0.landed == |Run(s, c, Never).0.journal|
  {
    EveryStopIsRecoverable(s, c, Never);
    if s.landed < |s.journal| { PendingIsPreviewed(s, c); }
  }

  /** With no pending tail and nothing blocking, the revalidated plan is the planned one, and all of it is recorded. */
  lemma ApplyOverLanded(s: Store, c: Command, completion: bool)
    requires DistinctGroups(c) && s.landed == |s.journal| && !PlanBlocks(PlanOf(s, c))
    ensures var s2 := s.(journal := s.journal + Records(PlanOf(s, c)));
            Apply(s, PlanOf(s, c), c, completion, Never).0
              == Rehydrate(s2).(stats := |s2.journal|, certificate := Rehydrate(s2).revision)
  {
    NoSelfRecovery(s, c);
    assert Rehydrate(s) == s;
  }

  lemma NothingToRecord(s: Store, c: Command)
    requires !PlanBlocks(PlanOf(s, c)) && !StatusOf(PlanOf(s, c)).Preview?
    ensures Records(PlanOf(s, c)) == []
  {
    RecordsEmpty(PlanOf(s, c));
  }

  /** What an uninterrupted run over a landed store leaves: nothing to do, or its records all the way through. */
  lemma RunOverLanded(s: Store, c: Command)
    requires Recoverable(s, c) && Unblocked(s, c) && s.landed == |s.journal|
    ensures var s2 := s.(journal := s.journal + Records(PlanOf(s, c)));
            Run(s, c, Never).0 == if StatusOf(PlanOf(s, c)).Preview? || TailPending(s)
                                  then Rehydrate(s2).(stats := |s2.journal|, certificate := Rehydrate(s2).revision) else s
    ensures !StatusOf(PlanOf(s, c)).Preview? ==> Records(PlanOf(s, c)) == []
  {
    ApplyOverLanded(s, c, TailPending(s));
    if !StatusOf(PlanOf(s, c)).Preview? { NothingToRecord(s, c); }
  }

  /** A run over a landed store finishes the job. */
  lemma RunCompletes(s: Store, c: Command)
    requires Recoverable(s, c) && Unblocked(s, c) && s.landed == |s.journal|
    ensures Agree(Run(s, c, Never).0) && Recorded(Run(s, c, Never).0, c)
    ensures Undisputed(c) && OneEach(s.journal, c) ==> Done(Run(s, c, Never).0, c)
  {
    RunOverLanded(s, c);
    RecordsAreOwn(s, c);
    var s2 := s.(journal := s.journal + Records(PlanOf(s, c)));
    AppendStaysRecoverable(s, c, Records(PlanOf(s, c)));
    RehydrateLands(s2);
    assert s.journal + [] == s.journal;
    RecordedHolds(s, c);
    RunKeepsOneEach(s, c, Never);
  }

  /** With the planned records landed, every attributable group is recorded and no reached assertion left. */
  lemma RecordedHolds(s: Store, c: Command)
    requires Recoverable(s, c) && Unblocked(s, c) && s.landed == |s.journal|
    ensures var j := s.journal + Records(PlanOf(s, c)); Recorded(s.(journal := j, active := ActiveAt(j, |j|)), c)
  {
    var ops := Records(PlanOf(s, c));
    if c.mode.RetractMode? {
      RetractedIsDone(s, c);
    } else {
      forall i | 0 <= i < |c.groups| && Attributable(c.groups[i])
        ensures Owned(s.(journal := s.journal + ops, active := ActiveAt(s.journal + ops, |s.journal + ops|)), c.groups[i].key)
      {
        RecordedIsOwned(s, c, i);
      }
    }
  }

  lemma RetractedIsDone(s: Store, c: Command)
    requires Recoverable(s, c) && c.mode.RetractMode? && s.landed == |s.journal|
    ensures var j := s.journal + Records(PlanOf(s, c)); Recorded(s.(journal := j, active := ActiveAt(j, |j|)), c)
  {
    var targets := PlanRetractions(s, c.inRange, |s.journal|);
    var j := s.journal + RetractOps(targets);
    PlanRetractionsAre(s, c.inRange, |s.journal|);
    forall k | 0 <= k < |targets| ensures targets[k] < |s.journal| {
      assert targets[k] in targets;
    }
    forall q: nat | q in ActiveAt(j, |j|) && q < |j| && j[q].Assert? ensures j[q].key !in c.inRange {
      StillActive(s.journal, targets, q);
    }
  }

  lemma StillActive(j: seq<Op>, targets: seq<nat>, q: nat)
    requires forall k | 0 <= k < |targets| :: targets[k] < |j|
    requires q in ActiveAt(j + RetractOps(targets), |j + RetractOps(targets)|)
    ensures q < |j| && q in ActiveAt(j, |j|) && q !in targets
  {
    var ops := RetractOps(targets);
    RetractOpsAre(targets);
    ActiveAfterAll(j, ops, q);
    assert forall k | 0 <= k < |targets| :: ops[k] == Retract(targets[k]);
  }

  lemma OpsAreAsserts(entries: seq<Entry>)
    ensures forall k | 0 <= k < |EligibleOps(entries, |entries|)| :: EligibleOps(entries, |entries|)[k].Assert?
  {
    var ops := EligibleOps(entries, |entries|);
    EligibleOpsAre(entries, |entries|);
    assert forall k | 0 <= k < |ops| :: ops[k] in ops;
  }

  lemma EligibleIsRecorded(entries: seq<Entry>, i: nat)
    requires i < |entries| && entries[i].disposition.Eligible?
    ensures Assert(entries[i].key) in EligibleOps(entries, |entries|)
  {
    EligibleOpsAre(entries, |entries|);
    assert AssertsEligible(entries, |entries|, Assert(entries[i].key));
  }

  /** An attribution plans an assertion for every unblocked attributable group it does not own alone. */
  lemma IsPlanned(s: Store, c: Command, i: nat)
    requires Unblocked(s, c) && c.mode.AttributeMode? && i < |c.groups| && Attributable(c.groups[i])
    requires !Owned(s, c.groups[i].key) || Disputed(c.groups[i])
    ensures Assert(c.groups[i].key) in Records(PlanOf(s, c))
  {
    var p := PlanOf(s, c);
    assert p.entries[i] == EntryOf(s, c.groups[i]) && p.entries[i].disposition.Eligible?;
    EligibleIsRecorded(p.entries, i);
  }

  lemma PlansAssertsOnly(s: Store, c: Command)
    requires c.mode.AttributeMode?
    ensures forall k | 0 <= k < |Records(PlanOf(s, c))| :: Records(PlanOf(s, c))[k].Assert?
  {
    OpsAreAsserts(PlanOf(s, c).entries);
  }

  lemma RecordedIsOwned(s: Store, c: Command, i: nat)
    requires Recoverable(s, c) && Unblocked(s, c) && c.mode.AttributeMode? && s.landed == |s.journal|
    requires i < |c.groups| && Attributable(c.groups[i])
    ensures var j := s.journal + Records(PlanOf(s, c)); Owned(s.(journal := j, active := ActiveAt(j, |j|)), c.groups[i].key)
  {
    PlansAssertsOnly(s, c);
    if !Owned(s, c.groups[i].key) { IsPlanned(s, c, i); }
    OwnedAfter(s, Records(PlanOf(s, c)), c.groups[i].key);
  }

  lemma OwnedAfter(s: Store, ops: seq<Op>, key: Key)
    requires s.active == ActiveAt(s.journal, |s.journal|) && forall k | 0 <= k < |ops| :: ops[k].Assert?
    requires Owned(s, key) || Assert(key) in ops
    ensures var j := s.journal + ops; Owned(s.(journal := j, active := ActiveAt(j, |j|)), key)
  {
    if Owned(s, key) {
      var q :| q in s.active && q < |s.journal| && s.journal[q] == Assert(key);
      LandedOwns(s, ops, q);
    } else {
      var k :| 0 <= k < |ops| && ops[k] == Assert(key);
      LandedOwns(s, ops, |s.journal| + k);
    }
  }

  lemma LandedOwns(s: Store, ops: seq<Op>, q: nat)
    requires s.active == ActiveAt(s.journal, |s.journal|) && forall k | 0 <= k < |ops| :: ops[k].Assert?
    requires q < |s.journal + ops| && (s.journal + ops)[q].Assert? && (q < |s.journal| ==> q in s.active)
    ensures var j := s.journal + ops; Owned(s.(journal := j, active := ActiveAt(j, |j|)), j[q].key)
  {
    ActiveAfterAll(s.journal, ops, q);
  }

  /** Any number of interrupted runs of one command, each stopping where it likes. */
  function Runs(s: Store, c: Command, stops: seq<Stop>): (t: Store)
    requires s.landed <= |s.journal|
    ensures t.landed <= |t.journal|
    decreases |stops|
  {
    if stops == [] then s else Runs(Run(s, c, stops[0]).0, c, stops[1..])
  }

  lemma {:induction false} RunsStayRecoverable(s: Store, c: Command, stops: seq<Stop>)
    requires Recoverable(s, c)
    ensures Recoverable(Runs(s, c, stops), c)
    ensures Unblocked(s, c) ==> Unblocked(Runs(s, c, stops), c)
    decreases |stops|
  {
    if stops != [] {
      EveryStopIsRecoverable(s, c, stops[0]);
      if Unblocked(s, c) { UnblockedStays(s, c, stops[0]); }
      RunsStayRecoverable(Run(s, c, stops[0]).0, c, stops[1..]);
    }
  }

  /**
  Recovery from any crash: however often and wherever runs of the command stopped, two uninterrupted
  reruns bring journal, derived table, stats index and certificate to agree, with each attributable group
  recorded, or no assertion left in a retraction's range. Each group is recorded by exactly one op if no
  other account claims one and none was recorded twice to begin with.
  */
  lemma TwoRerunsRecover(s: Store, c: Command, stops: seq<Stop>)
    requires Recoverable(s, c) && Unblocked(s, c)
    ensures var crashed := Runs(s, c, stops);
            var once := Run(crashed, c, Never).0;
            var twice := Run(once, c, Never).0;
            Agree(twice) && Recorded(twice, c) && (Undisputed(c) && OneEach(s.journal, c) ==> Done(twice, c))
  {
    RunsStayRecoverable(s, c, stops);
    var crashed := Runs(s, c, stops);
    RunsKeepOneEach(s, c, stops);
    RunKeepsOneEach(crashed, c, Never);
    FirstRerunLands(crashed, c);
    UnblockedStays(crashed, c, Never);
    RunCompletes(Run(crashed, c, Never).0, c);
  }

  /** However often runs stop, the groups they leave recorded twice are those found so, and disputed ones. */
  lemma {:induction false} RunsKeepOneEach(s: Store, c: Command, stops: seq<Stop>)
    requires Recoverable(s, c)
    ensures OneEach(Runs(s, c, stops).journal, c) ==> OneEach(s.journal, c)
    ensures Undisputed(c) && OneEach(s.journal, c) ==> OneEach(Runs(s, c, stops).journal, c)
    decreases |stops|
  {
    if stops != [] {
      EveryStopIsRecoverable(s, c, stops[0]);
      RunKeepsOneEach(s, c, stops[0]);
      RunsKeepOneEach(Run(s, c, stops[0]).0, c, stops[1..]);
    }
  }

  /** An agreed store with nothing left to record is left as it is: no append, no lock set. */
  lemma FinishedStoreIsLeftAlone(s: Store, c: Command, stop: Stop)
    requires Recoverable(s, c) && Agree(s) && Recorded(s, c) && Undisputed(c)
    ensures Run(s, c, stop).0 == s
  {
    var p := PlanOf(s, c);
    if c.mode.RetractMode? {
      PlanRetractionsAre(s, c.inRange, |s.journal|);
      SomeTarget(p.targets);
    } else {
      forall i | 0 <= i < |p.entries| ensures !p.entries[i].disposition.Eligible? {
        assert p.entries[i] == EntryOf(s, c.groups[i]);
      }
    }
  }

  lemma SomeTarget(targets: seq<nat>)
    ensures targets == [] || exists p :: p in targets
  {
    if targets != [] { assert targets[0] in targets; }
  }

  /******* Groups two accounts claim *******/

  /** An uninterrupted run with something to record lands all of it. */
  lemma RunLandsRecords(s: Store, c: Command)
    requires Recoverable(s, c) && Unblocked(s, c) && s.landed == |s.journal| && Records(PlanOf(s, c)) != []
    ensures var j := s.journal + Records(PlanOf(s, c));
            Run(s, c, Never).0.journal == j && Run(s, c, Never).0.active == ActiveAt(j, |j|)
  {
    var ops := Records(PlanOf(s, c));
    RunOverLanded(s, c);
    RecordsAreOwn(s, c);
    AppendStaysRecoverable(s, c, ops);
    RehydrateLands(s.(journal := s.journal + ops));
  }

  /** A disputed group an attribution does not refuse is contested once recorded, and recorded again by the next run. */
  lemma DisputedIsAppended(s: Store, c: Command, i: nat)
    requires Recoverable(s, c) && Unblocked(s, c) && c.mode.AttributeMode? && s.landed == |s.journal|
    requires i < |c.groups| && Disputed(c.groups[i])
    ensures var t := Run(s, c, Never).0;
            exists q :: |s.journal| <= q < |t.journal| && q in t.active && t.journal[q] == Assert(c.groups[i].key)
  {
    var ops := Records(PlanOf(s, c));
    IsPlanned(s, c, i);
    PlansAssertsOnly(s, c);
    RunLandsRecords(s, c);
    NewOpIsActive(s.journal, ops, Assert(c.groups[i].key));
  }

  lemma NewOpIsActive(j: seq<Op>, ops: seq<Op>, op: Op)
    requires op in ops && forall k | 0 <= k < |ops| :: ops[k].Assert?
    ensures exists q :: |j| <= q < |j + ops| && q in ActiveAt(j + ops, |j + ops|) && (j + ops)[q] == op
  {
    var k :| 0 <= k < |ops| && ops[k] == op;
    ActiveAfterAll(j, ops, |j| + k);
    assert (j + ops)[|j| + k] == op;
  }

  /**
  Exactly when a finished store is left alone: when no other account claims a group the command may record.
  Otherwise every run appends another assertion for that group.
  */
  lemma LeftAloneIff(s: Store, c: Command)
    requires Recoverable(s, c) && Unblocked(s, c) && Agree(s) && Recorded(s, c)
    ensures Run(s, c, Never).0 == s <==> Undisputed(c)
  {
    if Undisputed(c) {
      FinishedStoreIsLeftAlone(s, c, Never);
    } else {
      var i :| 0 <= i < |c.groups| && Disputed(c.groups[i]);
      DisputedIsAppended(s, c, i);
    }
  }

  /** An agreed store is done exactly when its groups are recorded and its journal records none of them twice. */
  lemma DoneIff(s: Store, c: Command)
    requires Agree(s)
    ensures Done(s, c) <==> Recorded(s, c) && OneEach(s.journal, c)
  {}

  /**
  Exactly when two runs over a landed store record each attributable group by one op: when no other account
  claims one, and none is recorded twice already.
  */
  lemma OneOpEachIff(s: Store, c: Command)
    requires Recoverable(s, c) && Unblocked(s, c) && s.landed == |s.journal|
    ensures var once := Run(s, c, Never).0;
            var twice := Run(once, c, Never).0;
            Agree(twice) && Recorded(twice, c) && (Done(twice, c) <==> Undisputed(c) && OneEach(s.journal, c))
  {
    var once := Run(s, c, Never).0;
    RunCompletes(s, c);
    EveryStopIsRecoverable(s, c, Never);
    UnblockedStays(s, c, Never);
    RunCompletes(once, c);
    RunKeepsOneEach(s, c, Never);
    RunKeepsOneEach(once, c, Never);
    DoneIff(Run(once, c, Never).0, c);
    if !Undisputed(c) {
      var i :| 0 <= i < |c.groups| && Disputed(c.groups[i]);
      SecondOp(once, c, i);
    }
  }

  /** The same from any crash, one rerun later: the first one may do no more than land what was pending. */
  lemma ThreeRerunsIff(s: Store, c: Command, stops: seq<Stop>)
    requires Recoverable(s, c) && Unblocked(s, c)
    ensures var once := Run(Runs(s, c, stops), c, Never).0;
            var thrice := Run(Run(once, c, Never).0, c, Never).0;
            Done(thrice, c) <==> Undisputed(c) && OneEach(s.journal, c)
  {
    var crashed := Runs(s, c, stops);
    RunsStayRecoverable(s, c, stops);
    RunsKeepOneEach(s, c, stops);
    RunKeepsOneEach(crashed, c, Never);
    FirstRerunLands(crashed, c);
    UnblockedStays(crashed, c, Never);
    OneOpEachIff(Run(crashed, c, Never).0, c);
  }

  lemma SecondOp(s: Store, c: Command, i: nat)
    requires Recoverable(s, c) && Unblocked(s, c) && c.mode.AttributeMode? && s.landed == |s.journal|
    requires i < |c.groups| && Disputed(c.groups[i]) && Owned(s, c.groups[i].key)
    ensures !OneOp(Run(s, c, Never).0.journal, Run(s, c, Never).0.active, c.groups[i].key)
  {
    var t, key := Run(s, c, Never).0, c.groups[i].key;
    DisputedIsAppended(s, c, i);
    RunOnlyAdds(s, c, Never);
    var p :| p in s.active && p < |s.journal| && s.journal[p] == Assert(key);
    var q :| |s.journal| <= q < |t.journal| && q in t.active && t.journal[q] == Assert(key);
    assert t.journal[p] == Assert(key) && p in t.active && p != q;
  }

  /** The finished store after `n` assertions of the contested group `g`. */
  function Asserted(n: nat): Store { Store(seq(n, _ => Assert("g")), Below(n), n, n, n, n) }

  function Below(n: nat): set<nat> { if n == 0 then {} else Below(n - 1) + {n - 1} }

  /** The group `g`, claimed by one other account as well. */
  const CONTEST := Command(AttributeMode, [Group("g", false, false, 1, false, false, false)], {})

  /** On this store everything agrees, and still every run appends one more assertion. */
  lemma EachRunAppendsOne(n: nat)
    requires n > 0
    ensures Agree(Asserted(n)) && Run(Asserted(n), CONTEST, Never).0 == Asserted(n + 1)
  {
    var s := Asserted(n);
    AllActive(n, n);
    assert Owned(s, "g") by { assert 0 in s.active && s.journal[0] == Assert("g"); }
    var p := PlanOf(s, CONTEST);
    assert p.entries == [Entry("g", Eligible, false, false)];
    assert EligibleOps(p.entries, 0) == [] && EligibleOps(p.entries, 1) == [Assert("g")];
    assert !IsRecovery(p, p) by { assert p.entries[0].disposition.Eligible?; }
    assert Rehydrate(s) == s;
    var s2 := s.(journal := s.journal + [Assert("g")]);
    assert s2.journal == Asserted(n + 1).journal;
    assert LandOp(s2).landed == |s2.journal| && Rehydrate(s2) == LandOp(s2);
    assert LandOp(s2).active == Asserted(n + 1).active;
  }

  /** The same group once the other account has retracted its claim. */
  const SETTLED := Command(AttributeMode, [Group("g", false, false, 0, false, false, false)], {})

  /** What the dispute left stays: undisputed, agreed, recorded and left alone, with more than one op for the group. */
  lemma SettledDisputeKeepsDuplicates(n: nat, stop: Stop)
    requires n > 1
    ensures var s := Asserted(n);
            && Recoverable(s, SETTLED) && Unblocked(s, SETTLED) && Undisputed(SETTLED)
            && Agree(s) && Recorded(s, SETTLED) && Run(s, SETTLED, stop).0 == s && !Done(s, SETTLED)
  {
    var s := Asserted(n);
    AllActive(n, n);
    assert Owned(s, "g") by { assert 0 in s.active && s.journal[0] == Assert("g"); }
    assert forall p | 0 <= p < n :: RetractsActive(s.journal, p);
    FinishedStoreIsLeftAlone(s, SETTLED, stop);
    assert !OneOp(s.journal, s.active, "g") by { assert 0 in s.active && 1 in s.active && s.journal[1] == Assert("g"); }
    assert Attributable(SETTLED.groups[0]);
  }

  lemma {:induction false} AllActive(n: nat, m: nat)
    requires m <= n
    ensures ActiveAt(Asserted(n).journal, m) == Below(m) && forall p: nat :: p in Below(m) <==> p < m
  {
    if m > 0 { AllActive(n, m - 1); }
  }

  /******* The command, step by step *******/

  class Workspace {
    var journal: seq<Op>
    var active: set<nat>
    var landed: nat
    var revision: nat
    var stats: nat
    var certificate: nat

    function Contents(): Store
      reads this
    {
      Store(journal, active, landed, revision, stats, certificate)
    }

    /** Replay the unlanded tail; the revision moves with every op that changed a row. */
    method RehydrateTail()
      requires landed <= |journal|
      modifies this
      ensures Contents() == Rehydrate(old(Contents()))
    {
      while landed < |journal|
        invariant landed <= |journal|
        invariant Rehydrate(Contents()) == Rehydrate(old(Contents()))
      {
        match journal[landed] {
          case Assert(_) =>
            active := active + {landed};
            revision := revision + 1;
          case Retract(t) =>
            if t in active {
              active := active - {t};
              revision := revision + 1;
            }
        }
        landed := landed + 1;
      }
    }

    /** Record the plan, move the derived table, the stats index and the projection, in that order. */
    method ApplyPlan(planned: Plan, c: Command, completion: bool, stop: Stop) returns (status: Status)
      requires landed <= |journal|
      modifies this
      ensures (Contents(), status) == Apply(old(Contents()), planned, c, completion, stop)
    {
      RehydrateTail();
      var current := PlanOf(Contents(), c);
      var recovered := IsRecovery(planned, current);
      if !recovered {
        if current != planned {
          return Conflict;
        }
        if PlanBlocks(current) {
          return RefusedStatus;
        }
      }
      var records := Records(current);
      if stop.InAppend? && stop.lines < |records| {
        journal := journal + records[..stop.lines];
        return Interrupted;
      }
      journal := journal + records;
      if stop.BeforeCacheCommit? {
        return Interrupted;
      }
      RehydrateTail();
      if stop.BeforeStats? {
        return Interrupted;
      }
      stats := |journal|;
      if stop.BeforeProjection? {
        return Interrupted;
      }
      certificate := revision;
      status := if (recovered || completion) && records == [] then Recovered else Applied;
    }

    /** The command with `--yes`: preview, and apply when there is something to record or to finish. */
    method Attribute(c: Command, stop: Stop) returns (status: Status)
      requires landed <= |journal|
      modifies this
      ensures (Contents(), status) == Run(old(Contents()), c, stop)
    {
      var planned := PlanOf(Contents(), c);
      var completion := certificate != revision;
      status := StatusOf(planned);
      if status != RefusedStatus && (status == Preview || completion) {
        status := ApplyPlan(planned, c, completion, stop);
      }
    }
  }
}
