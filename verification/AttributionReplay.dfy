/**
The journal-backed Claude attribution tables: the replay of the journal past a cursor,
the journal-first append of decisions, and what a crash between the two leaves.

A journal position is the index of a complete line. The journal only grows, and only the
holder of the cache writer lock appends decision lines; everybody else may append any
other line at any moment.
*/
module AttributionReplay {
  import opened Wrappers

  type Key = string
  type Account = Option<string>

  /** The three writer stamps a journal record may carry. */
  datatype Stamps = Stamps(generation: bool, revision2: bool, revision3: bool)

  /** One complete journal line, reduced to what the replay reads from it. */
  datatype Line =
    | Decision(items: seq<Key>, account: Account, stamps: Stamps)
    | Observation(captured: int, precision: nat, observed: Account, stamps: Stamps)
    | CutoverOp
    | RevisionOp
    | Revision3Op
    | Other

  /** The admission boundary: where the cutover and its two revisions stand. */
  datatype Boundary = Boundary(cutover: Option<nat>, revision: Option<nat>, revision3: Option<nat>)

  datatype Stored = Stored(account: Account, pos: nat)
  datatype Row = Row(captured: int, precision: nat, account: Account, pos: nat)
  datatype Fingerprint = Fingerprint(cutover: Option<nat>, revision: Option<nat>)
  datatype Cursor = Cursor(hw: nat, rule: nat, admission: Fingerprint)
  datatype Tables = Tables(decisions: map<Key, Stored>, timeline: set<Row>, cursor: Option<Cursor>, conflicts: nat)

  const RULE_VERSION := 1
  const CURRENT := Stamps(true, true, true)

  /******* Admission *******/

  /** The boundary a lookup finds: each fence counts once, and only after the one before it. */
  function FindBoundary(j: seq<Line>): Boundary {
    if j == [] then Boundary(None, None, None) else
      var p := |j| - 1;
      var b := FindBoundary(j[..p]);
      match j[p]
      case CutoverOp => if b.cutover.None? then b.(cutover := Some(p)) else b
      case RevisionOp => if b.cutover.Some? && b.revision.None? then b.(revision := Some(p)) else b
      case Revision3Op => if b.revision.Some? && b.revision3.None? then b.(revision3 := Some(p)) else b
      case _ => b
  }

  function AdmissionFingerprint(b: Boundary): Fingerprint {
    Fingerprint(b.cutover, b.revision)
  }

  predicate Past(fence: Option<nat>, pos: nat) { fence.Some? && fence.value <= pos }

  /** The admission rule for a Claude-family record at `pos`. */
  predicate Classify(stamps: Stamps, pos: nat, b: Boundary) {
    if !Past(b.cutover, pos) then true
    else if stamps.generation then
      if Past(b.revision, pos) && !stamps.revision2 then false
      else !Past(b.revision3, pos) || stamps.revision3
    else false
  }

  /** Whether the replay applies line `p`, under the boundary of the whole journal. */
  predicate Applies(j: seq<Line>, p: nat)
    requires p < |j|
  {
    (j[p].Decision? || j[p].Observation?) && Classify(j[p].stamps, p, FindBoundary(j))
  }

  /******* What a replay computes *******/

  /** First-wins insertion of one decision line. */
  function InsertItems(d: map<Key, Stored>, items: seq<Key>, account: Account, pos: nat): map<Key, Stored> {
    d + map k | k in items && k !in d :: Stored(account, pos)
  }

  /** How many items contradict a decision already in `d`. */
  function CountAgainst(d: map<Key, Stored>, items: seq<Key>, account: Account): nat {
    if items == [] then 0 else
      var k := items[|items| - 1];
      CountAgainst(d, items[..|items| - 1], account) + if k in d && d[k].account != account then 1 else 0
  }

  datatype Fold = Fold(decisions: map<Key, Stored>, timeline: set<Row>, conflicts: nat)

  const EMPTY := Fold(map[], {}, 0)

  function ApplyLine(f: Fold, line: Line, pos: nat): Fold {
    match line
    case Decision(items, account, _) =>
      Fold(InsertItems(f.decisions, items, account, pos), f.timeline,
           f.conflicts + CountAgainst(f.decisions, items, account))
    case Observation(captured, precision, account, _) =>
      f.(timeline := f.timeline + {Row(captured, precision, account, pos)})
    case _ => f
  }

  function Replay(j: seq<Line>, lo: nat, hi: nat, f: Fold): Fold
    requires lo <= hi <= |j|
  {
    if lo == hi then f else
      var g := Replay(j, lo, hi - 1, f);
      if Applies(j, hi - 1) then ApplyLine(g, j[hi - 1], hi - 1) else g
  }

  /** The truth of a journal prefix: everything replayed from the origin. */
  function Truth(j: seq<Line>, hi: nat): Fold
    requires hi <= |j|
  {
    Replay(j, 0, hi, EMPTY)
  }

  ghost predicate NoDecisions(j: seq<Line>, lo: nat) {
    forall p | lo <= p < |j| :: !j[p].Decision?
  }

  /******* A later boundary never changes what a consumed line meant *******/

  lemma {:induction false} BoundaryFences(j: seq<Line>)
    ensures var b := FindBoundary(j);
            (b.cutover.Some? ==> b.cutover.value < |j|) && (b.revision.Some? ==> b.revision.value < |j|)
            && (b.revision3.Some? ==> b.revision3.value < |j|)
  {
    if j != [] {
      BoundaryFences(j[..|j| - 1]);
    }
  }

  /** Where the fences stand: the first cutover, the first revision behind it, the first third revision behind that. */
  ghost predicate FirstBehind(j: seq<Line>, from: int, op: Line, fence: Option<nat>) {
    match fence
    case None => forall q | from < q < |j| && 0 <= q :: j[q] != op
    case Some(p) => from < p < |j| && j[p] == op && forall q | from < q < p && 0 <= q :: j[q] != op
  }

  lemma {:induction false} BoundaryIs(j: seq<Line>)
    ensures var b := FindBoundary(j);
            && FirstBehind(j, -1, CutoverOp, b.cutover)
            && (if b.cutover.Some? then FirstBehind(j, b.cutover.value, RevisionOp, b.revision) else b.revision.None?)
            && (if b.revision.Some? then FirstBehind(j, b.revision.value, Revision3Op, b.revision3) else b.revision3.None?)
  {
    if j != [] {
      BoundaryIs(j[..|j| - 1]);
      assert forall q | 0 <= q < |j| - 1 :: j[..|j| - 1][q] == j[q];
    }
  }

  /**
  Whether line `p` counts, by what stands before it: behind a cutover it needs the writer's stamp, behind a
  cutover and then a revision the second stamp too, and behind a third revision after those the third.
  */
  ghost predicate Admitted(j: seq<Line>, p: nat)
    requires p < |j|
  {
    && (j[p].Decision? || j[p].Observation?)
    && (forall c | 0 <= c < p && j[c].CutoverOp? :: j[p].stamps.generation)
    && (forall c, r | 0 <= c < r < p && j[c].CutoverOp? && j[r].RevisionOp? :: j[p].stamps.revision2)
    && (forall c, r, x | 0 <= c < r < x < p && j[c].CutoverOp? && j[r].RevisionOp? && j[x].Revision3Op? :: j[p].stamps.revision3)
  }

  /** The replay applies exactly the lines that count. */
  lemma AppliesIff(j: seq<Line>, p: nat)
    requires p < |j|
    ensures Applies(j, p) <==> Admitted(j, p)
  {
    var b := FindBoundary(j);
    BoundaryIs(j);
    if b.cutover.Some? && b.cutover.value < p {
      var c := b.cutover.value;
      assert j[c].CutoverOp?;
      if b.revision.Some? && b.revision.value < p {
        var r := b.revision.value;
        assert j[r].RevisionOp?;
        if b.revision3.Some? && b.revision3.value < p {
          assert j[b.revision3.value].Revision3Op?;
        }
      }
    }
  }

  lemma {:induction false} AdmissionIsStable(j: seq<Line>, k: nat, p: nat)
    requires p < k <= |j|
    ensures Applies(j, p) == Applies(j[..k], p)
    decreases |j|
  {
    if k < |j| {
      var n := |j| - 1;
      var front := j[..n];
      AdmissionIsStable(front, k, p);
      assert front[..k] == j[..k];
      BoundaryFences(front);
    } else {
      assert j[..k] == j;
    }
  }

  lemma {:induction false} ReplayIsStable(j: seq<Line>, k: nat, lo: nat, hi: nat, f: Fold)
    requires lo <= hi <= k <= |j|
    ensures Replay(j, lo, hi, f) == Replay(j[..k], lo, hi, f)
    decreases hi
  {
    if lo < hi {
      ReplayIsStable(j, k, lo, hi - 1, f);
      AdmissionIsStable(j, k, hi - 1);
    }
  }

  /** Growing the journal leaves the truth of every prefix unchanged, fences included. */
  lemma TruthIsStable(j: seq<Line>, more: seq<Line>, hi: nat)
    requires hi <= |j|
    ensures Truth(j + more, hi) == Truth(j, hi)
  {
    ReplayIsStable(j + more, |j|, 0, hi, EMPTY);
    assert (j + more)[..|j|] == j;
  }

  /******* First-wins: the truth without the fold *******/

  /** Line `p` is an applied decision line naming `k`. */
  predicate Names(j: seq<Line>, p: nat, k: Key)
    requires p < |j|
  {
    j[p].Decision? && Applies(j, p) && k in j[p].items
  }

  /** `k`'s decision is exactly the one of the earliest applied line that names it. */
  lemma {:induction false} TruthIsFirstWins(j: seq<Line>, hi: nat, k: Key)
    requires hi <= |j|
    ensures k in Truth(j, hi).decisions <==> exists p | 0 <= p < hi :: Names(j, p, k)
    ensures k in Truth(j, hi).decisions ==>
              var s := Truth(j, hi).decisions[k];
              s.pos < hi && Names(j, s.pos, k) && s.account == j[s.pos].account
              && forall p | 0 <= p < s.pos :: !Names(j, p, k)
  {
    if hi > 0 {
      TruthIsFirstWins(j, hi - 1, k);
      if Names(j, hi - 1, k) {
        assert k in Truth(j, hi).decisions;
      }
    }
  }

  /** The timeline holds one row per applied observation and nothing else. */
  lemma {:induction false} TruthTimeline(j: seq<Line>, hi: nat, r: Row)
    requires hi <= |j|
    ensures r in Truth(j, hi).timeline <==>
            r.pos < hi && j[r.pos].Observation? && Applies(j, r.pos)
            && r == Row(j[r.pos].captured, j[r.pos].precision, j[r.pos].observed, r.pos)
  {
    if hi > 0 {
      TruthTimeline(j, hi - 1, r);
    }
  }

  /**
  What a table derived from the first `hi` lines holds: a row for each observation that counts, and for each
  key a decision that counts names, the first one's account at its position.
  */
  ghost predicate FromAdmitted(j: seq<Line>, hi: nat, decisions: map<Key, Stored>, timeline: set<Row>)
    requires hi <= |j|
  {
    && (forall r :: r in timeline <==>
          r.pos < hi && Admitted(j, r.pos) && j[r.pos].Observation?
          && r == Row(j[r.pos].captured, j[r.pos].precision, j[r.pos].observed, r.pos))
    && (forall k, p | 0 <= p < hi && Decides(j, p, k) :: k in decisions && decisions[k].pos <= p)
    && (forall k | k in decisions ::
          var s := decisions[k]; s.pos < hi && Decides(j, s.pos, k) && s.account == j[s.pos].account)
  }

  /** Line `p` is a decision that counts, and names `k`. */
  ghost predicate Decides(j: seq<Line>, p: nat, k: Key)
    requires p < |j|
  {
    Admitted(j, p) && j[p].Decision? && k in j[p].items
  }

  lemma TruthIsFromAdmitted(j: seq<Line>, hi: nat)
    requires hi <= |j|
    ensures FromAdmitted(j, hi, Truth(j, hi).decisions, Truth(j, hi).timeline)
  {
    forall r ensures r in Truth(j, hi).timeline <==>
                     r.pos < hi && Admitted(j, r.pos) && j[r.pos].Observation?
                     && r == Row(j[r.pos].captured, j[r.pos].precision, j[r.pos].observed, r.pos)
    {
      TruthTimeline(j, hi, r);
      if r.pos < hi { AppliesIff(j, r.pos); }
    }
    forall k, p | 0 <= p < hi && Decides(j, p, k)
      ensures k in Truth(j, hi).decisions && Truth(j, hi).decisions[k].pos <= p
    {
      AppliesIff(j, p);
      TruthIsFirstWins(j, hi, k);
      assert Names(j, p, k);
    }
    forall k | k in Truth(j, hi).decisions
      ensures var s := Truth(j, hi).decisions[k]; s.pos < hi && Decides(j, s.pos, k) && s.account == j[s.pos].account
    {
      TruthIsFirstWins(j, hi, k);
      AppliesIff(j, Truth(j, hi).decisions[k].pos);
    }
  }

  /** Contradictions of the lines in `[lo, hi)` against one fixed decision table. */
  function ConflictSum(j: seq<Line>, lo: nat, hi: nat, d: map<Key, Stored>): nat
    requires lo <= hi <= |j|
  {
    if lo == hi then 0 else
      ConflictSum(j, lo, hi - 1, d)
      + if j[hi - 1].Decision? && Applies(j, hi - 1) then CountAgainst(d, j[hi - 1].items, j[hi - 1].account) else 0
  }

  /** The items, repeats included, that hold another account already. */
  ghost function Contradicting(d: map<Key, Stored>, items: seq<Key>, account: Account): set<nat> {
    set i: nat | i < |items| && items[i] in d && d[items[i]].account != account
  }

  lemma {:induction false} CountAgainstIs(d: map<Key, Stored>, items: seq<Key>, account: Account)
    ensures CountAgainst(d, items, account) == |Contradicting(d, items, account)|
  {
    if items != [] {
      var front := items[..|items| - 1];
      CountAgainstIs(d, front, account);
      OneMoreItem(d, front, items[|items| - 1], account);
      assert items == front + [items[|items| - 1]];
    }
  }

  lemma OneMoreItem(d: map<Key, Stored>, front: seq<Key>, k: Key, account: Account)
    ensures |Contradicting(d, front + [k], account)|
         == |Contradicting(d, front, account)| + if k in d && d[k].account != account then 1 else 0
  {
    assert Contradicting(d, front + [k], account)
        == Contradicting(d, front, account) + if k in d && d[k].account != account then {|front|} else {};
  }

  ghost predicate Extends(d: map<Key, Stored>, big: map<Key, Stored>) {
    forall k | k in d :: k in big && big[k] == d[k]
  }

  lemma {:induction false} CountAgainstLater(d: map<Key, Stored>, big: map<Key, Stored>,
                                            all: seq<Key>, n: nat, account: Account, pos: nat)
    requires n <= |all|
    requires Extends(InsertItems(d, all, account, pos), big)
    ensures CountAgainst(d, all[..n], account) == CountAgainst(big, all[..n], account)
  {
    if n > 0 {
      CountAgainstLater(d, big, all, n - 1, account, pos);
      assert all[..n][..n - 1] == all[..n - 1];
      var k := all[n - 1];
      assert k in InsertItems(d, all, account, pos);
    }
  }

  lemma {:induction false} TruthGrows(j: seq<Line>, lo: nat, hi: nat)
    requires lo <= hi <= |j|
    ensures Extends(Truth(j, lo).decisions, Truth(j, hi).decisions)
    decreases hi
  {
    if lo < hi {
      TruthGrows(j, lo, hi - 1);
    }
  }

  /** The conflict count of a prefix, read off the FINAL table: every item against its first decision. */
  lemma {:induction false} TruthConflicts(j: seq<Line>, hi: nat, m: nat)
    requires hi <= m <= |j|
    ensures Truth(j, hi).conflicts == ConflictSum(j, 0, hi, Truth(j, m).decisions)
    decreases hi
  {
    if hi > 0 {
      TruthConflicts(j, hi - 1, m);
      if j[hi - 1].Decision? && Applies(j, hi - 1) {
        TruthGrows(j, hi, m);
        var items := j[hi - 1].items;
        CountAgainstLater(Truth(j, hi - 1).decisions, Truth(j, m).decisions, items, |items|, j[hi - 1].account, hi - 1);
        assert items[..|items|] == items;
      }
    }
  }

  lemma {:induction false} ConflictSumSplits(j: seq<Line>, lo: nat, mid: nat, hi: nat, d: map<Key, Stored>)
    requires lo <= mid <= hi <= |j|
    ensures ConflictSum(j, lo, hi, d) == ConflictSum(j, lo, mid, d) + ConflictSum(j, mid, hi, d)
    decreases hi
  {
    if mid < hi {
      ConflictSumSplits(j, lo, mid, hi - 1, d);
    }
  }

  /** The contradictions of `[lo, hi)`, each item against its first decision in the whole prefix. */
  lemma ConflictsBetween(j: seq<Line>, lo: nat, hi: nat)
    requires lo <= hi <= |j|
    ensures Truth(j, hi).conflicts == Truth(j, lo).conflicts + ConflictSum(j, lo, hi, Truth(j, hi).decisions)
  {
    TruthConflicts(j, lo, hi);
    TruthConflicts(j, hi, hi);
    ConflictSumSplits(j, 0, lo, hi, Truth(j, hi).decisions);
  }

  /******* The incremental replay *******/

  /**
  Re-reading lines that are already applied changes nothing but the conflict count: from a table
  that already holds the decisions of `[0, m)`, replaying `[c, h)` reaches the truth of `h`, and adds
  exactly the conflicts of the lines it read.
  */
  lemma {:induction false} IncrementalReplay(j: seq<Line>, c: nat, m: nat, h: nat, n: nat)
    requires c <= h <= |j| && c <= m <= |j|
    ensures var f := Replay(j, c, h, Fold(Truth(j, m).decisions, Truth(j, c).timeline, n));
            && f.decisions == Truth(j, if h <= m then m else h).decisions
            && f.timeline == Truth(j, h).timeline
            && n + Truth(j, h).conflicts == Truth(j, c).conflicts + f.conflicts
    decreases h
  {
    if c < h {
      IncrementalReplay(j, c, m, h - 1, n);
      if j[h - 1].Decision? && Applies(j, h - 1) {
        var d := Truth(j, h - 1).decisions;
        var items, account := j[h - 1].items, j[h - 1].account;
        if h <= m {
          TruthGrows(j, h, m);
          CountAgainstLater(d, Truth(j, m).decisions, items, |items|, account, h - 1);
          assert items[..|items|] == items;
          assert InsertItems(Truth(j, m).decisions, items, account, h - 1) == Truth(j, m).decisions;
        }
      }
    }
  }

  /******* The conflict count of an append *******/

  datatype Batch = Batch(items: seq<Key>, account: Account)

  /** The lines one append writes: this binary stamps everything it writes. */
  function OwnLines(batches: seq<Batch>): (lines: seq<Line>)
    ensures |lines| == |batches|
    ensures forall i | 0 <= i < |batches| :: lines[i] == Decision(batches[i].items, batches[i].account, CURRENT)
  {
    seq(|batches|, i requires 0 <= i < |batches| => Decision(batches[i].items, batches[i].account, CURRENT))
  }

  /** Every item already decided has its batch's account, and batches that share an item share an account. */
  ghost predicate Agreeing(d: map<Key, Stored>, batches: seq<Batch>) {
    && (forall i, k | 0 <= i < |batches| && k in batches[i].items && k in d :: d[k].account == batches[i].account)
    && (forall i, i', k | 0 <= i < i' < |batches| && k in batches[i].items && k in batches[i'].items ::
          batches[i].account == batches[i'].account)
  }

  lemma {:induction false} NoneAgainstIff(d: map<Key, Stored>, items: seq<Key>, account: Account)
    ensures CountAgainst(d, items, account) == 0 <==> forall k | k in items && k in d :: d[k].account == account
  {
    if items != [] {
      var front := items[..|items| - 1];
      NoneAgainstIff(d, front, account);
      assert items == front + [items[|items| - 1]];
    }
  }

  lemma {:induction false} NoConflictIff(j: seq<Line>, batches: seq<Batch>, n: nat, d: map<Key, Stored>)
    requires n <= |batches|
    ensures ConflictSum(j + OwnLines(batches), |j|, |j| + n, d) == 0 <==>
              forall i, k | 0 <= i < n && k in batches[i].items && k in d :: d[k].account == batches[i].account
  {
    if n > 0 {
      NoConflictIff(j, batches, n - 1, d);
      assert (j + OwnLines(batches))[|j| + n - 1] == OwnLines(batches)[n - 1];
      NoneAgainstIff(d, batches[n - 1].items, batches[n - 1].account);
    }
  }

  /** After the append a key is decided as before, or as the batch that first named it says. */
  lemma DecidedBy(j: seq<Line>, batches: seq<Batch>, k: Key)
    requires k in Truth(j + OwnLines(batches), |j| + |batches|).decisions
    ensures var d, d' := Truth(j, |j|).decisions, Truth(j + OwnLines(batches), |j| + |batches|).decisions;
            if k in d then d'[k] == d[k]
            else exists i :: 0 <= i < |batches| && k in batches[i].items && d'[k].account == batches[i].account
  {
    var j' := j + OwnLines(batches);
    TruthIsStable(j, OwnLines(batches), |j|);
    TruthGrows(j', |j|, |j'|);
    if k !in Truth(j, |j|).decisions {
      TruthIsFirstWins(j', |j'|, k);
      TruthIsFirstWins(j', |j|, k);
      var p := Truth(j', |j'|).decisions[k].pos;
      assert p >= |j| && j'[p] == OwnLines(batches)[p - |j|];
      assert k in batches[p - |j|].items;
    }
  }

  /** An append contradicts nothing exactly when what it appends agrees with the table before it and with itself. */
  lemma AppendAgreesIff(j: seq<Line>, batches: seq<Batch>)
    ensures var j' := j + OwnLines(batches);
            ConflictSum(j', |j|, |j'|, Truth(j', |j'|).decisions) == 0 <==> Agreeing(Truth(j, |j|).decisions, batches)
  {
    NoConflictSettles(j, batches);
    if Agreeing(Truth(j, |j|).decisions, batches) { AgreeingSettle(j, batches); }
    if Settles(Truth(j + OwnLines(batches), |j| + |batches|).decisions, batches) { SettledAgree(j, batches); }
  }

  lemma NoConflictSettles(j: seq<Line>, batches: seq<Batch>)
    ensures var j' := j + OwnLines(batches);
            ConflictSum(j', |j|, |j'|, Truth(j', |j'|).decisions) == 0 <==> Settles(Truth(j', |j| + |batches|).decisions, batches)
  {
    var d' := Truth(j + OwnLines(batches), |j| + |batches|).decisions;
    NoConflictIff(j, batches, |batches|, d');
    ItemsAreDecided(j, batches, |batches|);
    SettlesIff(d', batches);
  }

  lemma SettlesIff(d: map<Key, Stored>, batches: seq<Batch>)
    requires forall i, k | 0 <= i < |batches| && k in batches[i].items :: k in d
    ensures Settles(d, batches) <==>
              forall i, k | 0 <= i < |batches| && k in batches[i].items && k in d :: d[k].account == batches[i].account
  {}

  lemma AgreeingSettle(j: seq<Line>, batches: seq<Batch>)
    requires Agreeing(Truth(j, |j|).decisions, batches)
    ensures Settles(Truth(j + OwnLines(batches), |j| + |batches|).decisions, batches)
  {
    ItemsAreDecided(j, batches, |batches|);
    forall i, k | 0 <= i < |batches| && k in batches[i].items
      ensures Truth(j + OwnLines(batches), |j| + |batches|).decisions[k].account == batches[i].account
    {
      DecidedAlike(j, batches, i, k);
    }
  }

  /** Every item of every batch is decided in `d`, with that batch's account. */
  ghost predicate Settles(d: map<Key, Stored>, batches: seq<Batch>) {
    forall i, k | 0 <= i < |batches| && k in batches[i].items :: k in d && d[k].account == batches[i].account
  }

  lemma DecidedAlike(j: seq<Line>, batches: seq<Batch>, i: nat, k: Key)
    requires Agreeing(Truth(j, |j|).decisions, batches) && i < |batches| && k in batches[i].items
    requires k in Truth(j + OwnLines(batches), |j| + |batches|).decisions
    ensures Truth(j + OwnLines(batches), |j| + |batches|).decisions[k].account == batches[i].account
  {
    DecidedBy(j, batches, k);
  }

  lemma SettledAgree(j: seq<Line>, batches: seq<Batch>)
    requires Settles(Truth(j + OwnLines(batches), |j| + |batches|).decisions, batches)
    ensures Agreeing(Truth(j, |j|).decisions, batches)
  {
    var d, d' := Truth(j, |j|).decisions, Truth(j + OwnLines(batches), |j| + |batches|).decisions;
    forall i, k | 0 <= i < |batches| && k in batches[i].items && k in d ensures d[k].account == batches[i].account {
      assert k in d' && d'[k].account == batches[i].account;
      DecidedBy(j, batches, k);
    }
    forall i, i', k | 0 <= i < i' < |batches| && k in batches[i].items && k in batches[i'].items
      ensures batches[i].account == batches[i'].account
    {
      assert d'[k].account == batches[i].account && d'[k].account == batches[i'].account;
    }
  }

  lemma {:induction false} ItemsAreDecided(j: seq<Line>, batches: seq<Batch>, n: nat)
    requires n <= |batches|
    ensures forall i, k | 0 <= i < n && k in batches[i].items :: k in Truth(j + OwnLines(batches), |j| + n).decisions
  {
    if n > 0 {
      ItemsAreDecided(j, batches, n - 1);
      var j', p := j + OwnLines(batches), |j| + n - 1;
      assert j'[p] == OwnLines(batches)[n - 1];
      OwnLineApplies(j', p, batches[n - 1].items, batches[n - 1].account);
    }
  }

  /**
  An append counts the contradictions of its own lines, and the next incremental replay reads those
  lines again. So the stored count equals the recount of an authoritative replay exactly when what was
  appended agrees with the table before it and with itself.
  */
  lemma ReplayRecountsAppends(j: seq<Line>, batches: seq<Batch>)
    ensures var j' := j + OwnLines(batches);
            var inserted := Replay(j', |j|, |j'|, Truth(j, |j|));
            var incremental := Replay(j', |j|, |j'|, inserted);
            && incremental.decisions == Truth(j', |j'|).decisions
            && incremental.timeline == Truth(j', |j'|).timeline
            && incremental.conflicts == Truth(j', |j'|).conflicts + (inserted.conflicts - Truth(j, |j|).conflicts)
            && (incremental.conflicts == Truth(j', |j'|).conflicts <==>
                ConflictSum(j', |j|, |j'|, Truth(j', |j'|).decisions) == 0)
            && (incremental.conflicts == Truth(j', |j'|).conflicts <==> Agreeing(Truth(j, |j|).decisions, batches))
  {
    var own := OwnLines(batches);
    var j' := j + own;
    TruthIsStable(j, own, |j|);
    ReplayConcat(j', 0, |j|, |j'|, EMPTY);
    var inserted := Replay(j', |j|, |j'|, Truth(j, |j|));
    assert inserted == Truth(j', |j'|);
    OwnLinesLeaveTimeline(j, own, |j'|);
    IncrementalReplay(j', |j|, |j'|, |j'|, inserted.conflicts);
    ConflictsBetween(j', |j|, |j'|);
    AppendAgreesIff(j, batches);
  }

  lemma {:induction false} ReplayConcat(j: seq<Line>, lo: nat, mid: nat, hi: nat, f: Fold)
    requires lo <= mid <= hi <= |j|
    ensures Replay(j, lo, hi, f) == Replay(j, mid, hi, Replay(j, lo, mid, f))
    decreases hi
  {
    if mid < hi {
      ReplayConcat(j, lo, mid, hi - 1, f);
    }
  }

  lemma {:induction false} OwnLinesLeaveTimeline(j: seq<Line>, own: seq<Line>, hi: nat)
    requires forall i | 0 <= i < |own| :: own[i].Decision?
    requires |j| <= hi <= |j + own|
    ensures Truth(j + own, hi).timeline == Truth(j, |j|).timeline
    decreases hi
  {
    if hi == |j| {
      TruthIsStable(j, own, |j|);
    } else {
      OwnLinesLeaveTimeline(j, own, hi - 1);
      assert (j + own)[hi - 1] == own[hi - 1 - |j|];
    }
  }

  /** The double count on one concrete journal: one contradiction, stored as two. */
  lemma ConflictCountedTwice()
    ensures var j := [Decision(["k"], Some("a"), CURRENT)];
            var j' := j + OwnLines([Batch(["k"], Some("b"))]);
            && Truth(j', 2).conflicts == 1
            && Replay(j', 1, 2, Replay(j', 1, 2, Truth(j, 1))).conflicts == 2
  {
    var j := [Decision(["k"], Some("a"), CURRENT)];
    var b := [Batch(["k"], Some("b"))];
    var j' := j + OwnLines(b);
    assert j' == [Decision(["k"], Some("a"), CURRENT), Decision(["k"], Some("b"), CURRENT)];
    assert Applies(j', 0) && Applies(j', 1);
    assert Replay(j', 0, 1, EMPTY) == ApplyLine(EMPTY, j'[0], 0);
    TruthIsStable(j, OwnLines(b), 1);
    var d := Truth(j', 1).decisions;
    assert d["k"] == Stored(Some("a"), 0);
    assert ["k"][..0] == [];
    assert CountAgainst(d, ["k"], Some("b")) == 1;
    assert Truth(j', 2) == ApplyLine(Truth(j', 1), j'[1], 1);
    assert CountAgainst(map[], ["k"], Some("a")) == 0;
    ReplayRecountsAppends(j, b);
  }

  /******* The store *******/

  ghost predicate CursorCurrent(t: Tables, b: Boundary) {
    t.cursor.Some? && t.cursor.value.rule == RULE_VERSION && t.cursor.value.admission == AdmissionFingerprint(b)
  }

  /**
  What a table state that carries a cursor of this rule says about the journal: its decisions are the
  truth of `extent` (the cursor, or the end of an append after it), its timeline is the truth of the
  cursor, and its conflict count is over by `dup`.
  */
  ghost predicate Consistent(j: seq<Line>, t: Tables, extent: nat, dup: nat) {
    t.cursor.Some? && t.cursor.value.rule == RULE_VERSION ==>
      var c := t.cursor.value.hw;
      && c <= extent <= |j|
      && t.decisions == Truth(j, extent).decisions
      && t.timeline == Truth(j, c).timeline
      && t.conflicts == Truth(j, c).conflicts + dup
  }

  lemma ConsistentGrows(j: seq<Line>, more: seq<Line>, t: Tables, extent: nat, dup: nat)
    requires Consistent(j, t, extent, dup)
    ensures Consistent(j + more, t, extent, dup)
  {
    if t.cursor.Some? && t.cursor.value.rule == RULE_VERSION {
      TruthIsStable(j, more, extent);
      TruthIsStable(j, more, t.cursor.value.hw);
    }
  }

  lemma {:induction false} TruthWithoutDecisions(j: seq<Line>, lo: nat, hi: nat)
    requires lo <= hi <= |j| && NoDecisions(j, lo)
    ensures Truth(j, hi).decisions == Truth(j, lo).decisions
    decreases hi
  {
    if lo < hi {
      TruthWithoutDecisions(j, lo, hi - 1);
    }
  }

  /** A line this binary stamped is admitted, whatever fences stand. */
  lemma OwnLineApplies(j: seq<Line>, p: nat, items: seq<Key>, account: Account)
    requires p < |j| && j[p] == Decision(items, account, CURRENT)
    ensures Truth(j, p + 1).decisions == InsertItems(Truth(j, p).decisions, items, account, p)
    ensures Truth(j, p + 1).conflicts == Truth(j, p).conflicts + CountAgainst(Truth(j, p).decisions, items, account)
    ensures forall k | k in items || k in Truth(j, p).decisions :: k in Truth(j, p + 1).decisions
  {}

  lemma InsertOne(d: map<Key, Stored>, items: seq<Key>, k: Key, account: Account, pos: nat)
    ensures var m := InsertItems(d, items, account, pos);
            InsertItems(d, items + [k], account, pos) == if k in m then m else m[k := Stored(account, pos)]
  {
    var next, m := InsertItems(d, items + [k], account, pos), InsertItems(d, items, account, pos);
    var m' := if k in m then m else m[k := Stored(account, pos)];
    forall x ensures x in items + [k] <==> x in items || x == k {
      assert (items + [k])[|items|] == k;
    }
    assert next.Keys == m'.Keys;
    assert forall x | x in next :: next[x] == m'[x];
  }

  lemma CountOne(d: map<Key, Stored>, items: seq<Key>, k: Key, account: Account, pos: nat)
    ensures var m := InsertItems(d, items, account, pos);
            CountAgainst(d, items + [k], account)
              == CountAgainst(d, items, account) + if k in m && m[k].account != account then 1 else 0
  {
    assert (items + [k])[..|items|] == items;
    assert (items + [k])[|items|] == k;
  }

  lemma WrittenLine(j: seq<Line>, start: nat, batches: seq<Batch>, i: nat)
    requires start + |batches| == |j| && j[start..] == OwnLines(batches) && i < |batches|
    ensures j[start + i] == Decision(batches[i].items, batches[i].account, CURRENT)
  {
    assert j[start + i] == j[start..][i];
  }

  lemma WrittenAreDecided(j: seq<Line>, start: nat, batches: seq<Batch>)
    requires start + |batches| == |j| && j[start..] == OwnLines(batches)
    ensures forall i, k | 0 <= i < |batches| && k in batches[i].items :: k in Truth(j, |j|).decisions
  {
    assert j == j[..start] + OwnLines(batches);
    ItemsAreDecided(j[..start], batches, |batches|);
  }

  class AttributionStore {
    var journal: seq<Line>    // durable; grows only
    var tables: Tables        // as the open transaction sees them
    var committed: Tables     // what a rollback or a crash restores
    ghost var open: bool      // a replay has run in this transaction
    ghost var extent: nat
    ghost var dup: nat        // contradictions appends of committed or open transactions counted themselves
    ghost var savedExtent: nat
    ghost var savedDup: nat

    ghost predicate Valid()
      reads this
    {
      && Consistent(journal, committed, savedExtent, savedDup)
      && (if open then
            && Consistent(journal, tables, extent, dup)
            && extent <= |journal|
            && tables.decisions == Truth(journal, extent).decisions
            && NoDecisions(journal, extent)
          else tables == committed)
    }

    /** A recreated cache: no cursor, whatever the journal holds. */
    constructor (j: seq<Line>)
      ensures Valid() && !open && journal == j && committed.cursor == None && savedExtent == 0
    {
      journal := j;
      tables := Tables(map[], {}, None, 0);
      committed := Tables(map[], {}, None, 0);
      open, extent, dup, savedExtent, savedDup := false, 0, 0, 0, 0;
    }

    /** Another writer appends; it does not hold the cache writer lock, so no decision. */
    method ForeignAppend(lines: seq<Line>)
      requires Valid() && forall i | 0 <= i < |lines| :: !lines[i].Decision?
      modifies this
      ensures Valid() && journal == old(journal) + lines
      ensures tables == old(tables) && committed == old(committed)
      ensures open == old(open) && extent == old(extent) && dup == old(dup)
      ensures savedExtent == old(savedExtent) && savedDup == old(savedDup)
    {
      ConsistentGrows(journal, lines, committed, savedExtent, savedDup);
      ConsistentGrows(journal, lines, tables, if open then extent else savedExtent, if open then dup else savedDup);
      if open { TruthIsStable(journal, lines, extent); }
      journal := journal + lines;
    }

    /** Insert one op's items first-wins; returns how many contradicted an existing decision. */
    method InsertDecisionItems(items: seq<Key>, account: Account, pos: nat) returns (conflicts: nat)
      modifies this`tables
      ensures tables == old(tables).(decisions := InsertItems(old(tables.decisions), items, account, pos))
      ensures conflicts == CountAgainst(old(tables.decisions), items, account)
    {
      conflicts := 0;
      ghost var d := tables.decisions;
      for i := 0 to |items|
        invariant tables == old(tables).(decisions := InsertItems(d, items[..i], account, pos))
        invariant conflicts == CountAgainst(d, items[..i], account)
      {
        assert items[..i + 1] == items[..i] + [items[i]];
        InsertOne(d, items[..i], items[i], account, pos);
        CountOne(d, items[..i], items[i], account, pos);
        if items[i] !in tables.decisions {
          tables := tables.(decisions := tables.decisions[items[i] := Stored(account, pos)]);
        } else if tables.decisions[items[i]].account != account {
          conflicts := conflicts + 1;
        }
      }
      assert items[..|items|] == items;
    }

    /** The traversal: every admitted line of the range, in order. */
    method ReplayLines(start: nat, stop: nat) returns (conflicts: nat)
      requires start <= stop <= |journal|
      modifies this`tables
      ensures Fold(tables.decisions, tables.timeline, conflicts)
                == Replay(journal, start, stop, Fold(old(tables.decisions), old(tables.timeline), 0))
      ensures tables.cursor == old(tables.cursor) && tables.conflicts == old(tables.conflicts)
    {
      conflicts := 0;
      ghost var before := Fold(tables.decisions, tables.timeline, 0);
      ghost var unread := tables;
      for p := start to stop
        invariant Fold(tables.decisions, tables.timeline, conflicts) == Replay(journal, start, p, before)
        invariant tables.cursor == unread.cursor && tables.conflicts == unread.conflicts
      {
        if Applies(journal, p) {
          match journal[p]
          case Decision(items, account, _) =>
            var found := InsertDecisionItems(items, account, p);
            conflicts := conflicts + found;
          case Observation(captured, precision, account, _) =>
            tables := tables.(timeline := tables.timeline + {Row(captured, precision, account, p)});
        }
      }
    }

    /** The branches of a replay: what it clears, where it starts, and the cursor and counter it stores. */
    method ReplaySuffix(authoritative: bool, hw: Option<nat>)
      requires Valid() && !open
      requires hw.None? <==> journal == []
      requires hw.Some? ==> savedExtent <= hw.value <= |journal| && NoDecisions(journal, hw.value)
      modifies this
      ensures Valid() && open && journal == old(journal)
      ensures committed == old(committed) && savedExtent == old(savedExtent) && savedDup == old(savedDup)
      ensures var h := if hw.Some? then hw.value else 0;
              && extent == h
              && tables.decisions == Truth(journal, h).decisions
              && tables.timeline == Truth(journal, h).timeline
              && var rebuilt := authoritative || !CursorCurrent(old(tables), FindBoundary(journal));
                 tables.conflicts == Truth(journal, h).conflicts + (if rebuilt then 0 else old(savedDup))
      ensures hw.Some? ==> tables.cursor == Some(Cursor(hw.value, RULE_VERSION, AdmissionFingerprint(FindBoundary(journal))))
    {
      var boundary := FindBoundary(journal);
      var fingerprint := AdmissionFingerprint(boundary);
      var from: Option<nat> := None;
      if tables.cursor.Some? && tables.cursor.value.rule == RULE_VERSION && tables.cursor.value.admission == fingerprint {
        from := Some(tables.cursor.value.hw);
      }
      var rebuild := authoritative || from.None?;
      open, extent, dup := true, 0, if rebuild then 0 else savedDup;
      if hw.None? {
        if rebuild {
          tables := Tables(map[], {}, None, 0);
        }
        return;
      }
      extent := hw.value;
      if rebuild {
        tables := tables.(decisions := map[], timeline := {});
      }
      var start := if rebuild then 0 else from.value;
      var conflicts: nat := 0;
      conflicts := ReplayLines(start, hw.value);
      tables := tables.(cursor := Some(Cursor(hw.value, RULE_VERSION, fingerprint)),
                        conflicts := if rebuild then conflicts else tables.conflicts + conflicts);
      if !rebuild {
        IncrementalReplay(journal, start, savedExtent, hw.value, 0);
      }
    }

    /**
    Replay the journal suffix past the cursor, in one traversal, on a new transaction. `hw` is the safe
    high water the caller holding the writer lock reads, `None` when no journal exists.
    */
    method Rehydrate(authoritative: bool, hw: Option<nat>)
      requires Valid() && !open
      requires hw.None? <==> journal == []
      requires hw.Some? ==> savedExtent <= hw.value <= |journal| && NoDecisions(journal, hw.value)
      modifies this
      ensures Valid() && open && journal == old(journal)
      ensures committed == old(committed) && savedExtent == old(savedExtent) && savedDup == old(savedDup)
      ensures var h := if hw.Some? then hw.value else 0;
              && extent == h
              && tables.decisions == Truth(journal, h).decisions
              && tables.timeline == Truth(journal, h).timeline
              && var rebuilt := authoritative || !CursorCurrent(old(tables), FindBoundary(journal));
                 tables.conflicts == Truth(journal, h).conflicts + (if rebuilt then 0 else old(savedDup))
      ensures hw.Some? ==> tables.cursor == Some(Cursor(hw.value, RULE_VERSION, AdmissionFingerprint(FindBoundary(journal))))
      ensures FromAdmitted(journal, if hw.Some? then hw.value else 0, tables.decisions, tables.timeline)
    {
      ReplaySuffix(authoritative, hw);
      TruthIsFromAdmitted(journal, if hw.Some? then hw.value else 0);
    }

    /** Insert the rows of one appended line. */
    method InsertBatch(batch: Batch, pos: nat) returns (conflicts: nat)
      requires pos < |journal| && journal[pos] == Decision(batch.items, batch.account, CURRENT)
      requires tables.decisions == Truth(journal, pos).decisions
      modifies this`tables
      ensures tables == old(tables).(decisions := Truth(journal, pos + 1).decisions)
      ensures Truth(journal, pos + 1).conflicts == Truth(journal, pos).conflicts + conflicts
      ensures forall k | k in batch.items || k in old(tables.decisions) :: k in tables.decisions
    {
      OwnLineApplies(journal, pos, batch.items, batch.account);
      conflicts := InsertDecisionItems(batch.items, batch.account, pos);
    }

    /** Insert the rows of the lines an append just wrote at `start`. */
    method InsertBatches(batches: seq<Batch>, start: nat) returns (conflicts: nat)
      requires start + |batches| == |journal| && journal[start..] == OwnLines(batches)
      requires tables.decisions == Truth(journal, start).decisions
      modifies this`tables
      ensures tables == old(tables).(decisions := Truth(journal, |journal|).decisions)
      ensures Truth(journal, |journal|).conflicts == Truth(journal, start).conflicts + conflicts
      ensures forall i, k | 0 <= i < |batches| && k in batches[i].items :: k in tables.decisions
    {
      conflicts := 0;
      for i := 0 to |batches|
        invariant tables == old(tables).(decisions := Truth(journal, start + i).decisions)
        invariant Truth(journal, start + i).conflicts == Truth(journal, start).conflicts + conflicts
      {
        WrittenLine(journal, start, batches, i);
        var found := InsertBatch(batches[i], start + i);
        conflicts := conflicts + found;
      }
      WrittenAreDecided(journal, start, batches);
    }

    /**
    Make decisions durable: one journal append, then the rows, at the positions the lines were
    written to, in the caller's transaction. Every key named holds a decision afterwards.
    */
    method AppendDecisions(batches: seq<Batch>)
      requires Valid() && open
      modifies this
      ensures Valid() && open && journal == old(journal) + OwnLines(batches)
      ensures committed == old(committed) && savedExtent == old(savedExtent) && savedDup == old(savedDup)
      ensures tables.decisions == Truth(journal, |journal|).decisions && extent == |journal|
      ensures tables.timeline == old(tables.timeline) && tables.cursor == old(tables.cursor)
      ensures tables.conflicts == old(tables.conflicts)
                + ConflictSum(journal, |old(journal)|, |journal|, tables.decisions)
      ensures dup == old(dup) + (tables.conflicts - old(tables.conflicts))
      ensures forall i, k | 0 <= i < |batches| && k in batches[i].items :: k in tables.decisions
    {
      var own := OwnLines(batches);
      var start := |journal|;
      ConsistentGrows(journal, own, committed, savedExtent, savedDup);
      ConsistentGrows(journal, own, tables, extent, dup);
      TruthWithoutDecisions(journal, extent, start);
      TruthIsStable(journal, own, start);
      journal := journal + own;
      var conflicts := InsertBatches(batches, start);
      tables := tables.(conflicts := tables.conflicts + conflicts);
      extent, dup := |journal|, dup + conflicts;
      ConflictsBetween(journal, start, |journal|);
    }

    /** The append failed or the process died in it: a prefix of its lines is durable, no row is. */
    method AppendInterrupted(batches: seq<Batch>, written: nat)
      requires Valid() && open && written <= |batches|
      modifies this
      ensures Valid() && !open && journal == old(journal) + OwnLines(batches)[..written]
      ensures tables == committed == old(committed)
      ensures savedExtent == old(savedExtent) && savedDup == old(savedDup)
    {
      ConsistentGrows(journal, OwnLines(batches)[..written], committed, savedExtent, savedDup);
      journal := journal + OwnLines(batches)[..written];
      tables := committed;
      open := false;
    }

    /** Cursor, rows and counters commit together. */
    method Commit()
      requires Valid() && open
      modifies this
      ensures Valid() && !open && journal == old(journal) && committed == tables == old(tables)
      ensures savedExtent == old(extent) && savedDup == old(dup)
    {
      committed := tables;
      savedExtent, savedDup := extent, dup;
      open := false;
    }

    /** A rollback, or a crash after an append: the tables go back, the journal does not. */
    method Crash()
      requires Valid()
      modifies this
      ensures Valid() && !open && journal == old(journal) && tables == committed == old(committed)
      ensures savedExtent == old(savedExtent) && savedDup == old(savedDup)
    {
      tables := committed;
      open := false;
    }
  }
}
