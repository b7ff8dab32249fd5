/**
Looking up the decision an identity holds, and preserving every unlinked accounting row in chunks: each
row is aligned to the decision its identity already holds, or its current stamp is exported as one.
*/
module AttributionPreserve {
  import opened Wrappers

  type Account = Option<string>

  /** The retained accounting fields of a row; the two TTL-split fields may be unknown. */
  datatype Projection = Projection(fields: seq<string>, oneHour: Option<nat>, fiveMinute: Option<nat>)

  datatype Identity =
    | Keyed(msgId: string, reqId: string)
    | Physical(loc: string, offset: nat, digest: string, projection: Projection)
    | Legacy(loc: string, offset: nat, projection: Projection)

  datatype DecisionKey =
    | KeyedKey(msgId: string, reqId: string)
    | PhysicalKey(loc: string, offset: nat, digest: string)
    | LegacyKey(loc: string, offset: nat, projection: Projection)

  function KeyOf(i: Identity): DecisionKey {
    match i
    case Keyed(m, q) => KeyedKey(m, q)
    case Physical(l, o, d, _) => PhysicalKey(l, o, d)
    case Legacy(l, o, p) => LegacyKey(l, o, p)
  }

  /******* Lookup *******/

  datatype Match = Exact | UnknownSplit | NoMatch

  function SplitUnknown(p: Projection): Projection { p.(oneHour := None, fiveMinute := None) }

  function LegacyMatch(decision: Projection, record: Projection): Match {
    if decision.fields != record.fields then NoMatch
    else if decision.oneHour == record.oneHour && decision.fiveMinute == record.fiveMinute then Exact
    else if decision.oneHour.None? && decision.fiveMinute.None? then UnknownSplit
    else NoMatch
  }

  /** The keys a legacy search at the identity's location considers, best rank first. */
  predicate Candidate(keys: set<DecisionKey>, i: Identity, k: DecisionKey)
    requires !i.Keyed?
  {
    k in keys && k.LegacyKey? && k.loc == i.loc && k.offset == i.offset && LegacyMatch(k.projection, i.projection) != NoMatch
  }

  /** Keyed, or physical, then legacy at the same place: an exact match before an unknown-split one. */
  function Lookup(keys: set<DecisionKey>, i: Identity): (found: Option<DecisionKey>)
    ensures found.Some? ==> found.value in keys
  {
    if !i.Legacy? && KeyOf(i) in keys then Some(KeyOf(i))
    else if i.Keyed? then None
    else
      var exact := LegacyKey(i.loc, i.offset, i.projection);
      var unknown := LegacyKey(i.loc, i.offset, SplitUnknown(i.projection));
      if exact in keys then Some(exact) else if unknown in keys then Some(unknown) else None
  }

  /**
  A lookup finds exactly the best candidate. There is at most one candidate of each rank, so the
  journal-position tie-break of the ordering never decides anything.
  */
  lemma LookupIsBest(keys: set<DecisionKey>, i: Identity, k: DecisionKey)
    requires !i.Keyed? && (i.Legacy? || KeyOf(i) !in keys)
    ensures Lookup(keys, i) == Some(k) <==>
              Candidate(keys, i, k) && forall c | Candidate(keys, i, c) ::
                c == k || (LegacyMatch(k.projection, i.projection) == Exact && LegacyMatch(c.projection, i.projection) == UnknownSplit)
    ensures Lookup(keys, i).None? <==> forall c :: !Candidate(keys, i, c)
    ensures forall c, d | Candidate(keys, i, c) && Candidate(keys, i, d)
              && LegacyMatch(c.projection, i.projection) == LegacyMatch(d.projection, i.projection) :: c == d
  {
    forall c | Candidate(keys, i, c)
      ensures c == LegacyKey(i.loc, i.offset, if LegacyMatch(c.projection, i.projection) == Exact then i.projection
                                              else SplitUnknown(i.projection))
    {}
    if Candidate(keys, i, LegacyKey(i.loc, i.offset, SplitUnknown(i.projection))) {}
    if Candidate(keys, i, LegacyKey(i.loc, i.offset, i.projection)) {}
  }

  /** Two identities that could name each other's decision. */
  predicate SameSlot(a: Identity, b: Identity) {
    if a.Keyed? || b.Keyed? then a == b else a.loc == b.loc && a.offset == b.offset
  }

  lemma LookupIgnoresOthers(keys: set<DecisionKey>, more: set<DecisionKey>, i: Identity)
    requires forall k | k in more :: exists o: Identity :: !SameSlot(i, o) && k == KeyOf(o)
    ensures Lookup(keys + more, i) == Lookup(keys, i)
  {}

  /******* Rows *******/

  /** A stored account stamp: missing or not text, or some text. */
  datatype RawStamp = NoStamp | Text(s: string)

  /** A stamp as a decision carries it: a real account, otherwise none. */
  function Preserved(s: RawStamp): Account {
    match s
    case NoStamp => None
    case Text(t) => if t == "" || t == "unattributed" then None else Some(t)
  }

  function StampOf(a: Account): RawStamp { match a case None => NoStamp case Some(t) => Text(t) }

  datatype Row = Row(id: int, path: string, identity: Identity, stamp: RawStamp, link: Option<DecisionKey>, mutationSeq: nat)

  datatype State = State(rows: seq<Row>, decisions: map<DecisionKey, Account>, mutationSeq: nat, alignedRows: nat)

  /** Rows in `id` order, one accounting row per identity, and no decision on a placeholder account. */
  ghost predicate WellFormed(s: State) { Ordered(s.rows) && OnePerSlot(s.rows) && NoPlaceholder(s.decisions) }

  ghost predicate Ordered(rows: seq<Row>) { forall i, j | 0 <= i < j < |rows| :: rows[i].id < rows[j].id }

  ghost predicate OnePerSlot(rows: seq<Row>) {
    && (forall i, j | 0 <= i < j < |rows| :: !SameSlot(rows[i].identity, rows[j].identity))
    && (forall i | 0 <= i < |rows| :: !rows[i].identity.Physical?)
  }

  ghost predicate NoPlaceholder(d: map<DecisionKey, Account>) { forall k | k in d :: Preserved(StampOf(d[k])) == d[k] }

  predicate Wanted(r: Row, paths: Option<set<string>>, after: int) {
    r.link.None? && r.id > after && (paths.None? || r.path in paths.value)
  }

  /** Link a row to a decision; an account change rewrites the stamp and takes the next mutation number. */
  function Align(s: State, i: nat, k: DecisionKey): State
    requires i < |s.rows| && k in s.decisions
  {
    var r := s.rows[i];
    if Preserved(r.stamp) != s.decisions[k] then
      s.(rows := s.rows[i := r.(stamp := StampOf(s.decisions[k]), link := Some(k), mutationSeq := s.mutationSeq + 1)],
         mutationSeq := s.mutationSeq + 1, alignedRows := s.alignedRows + 1)
    else s.(rows := s.rows[i := r.(link := Some(k))])
  }

  /** One row on its own: the rule, before any chunking. */
  function PreserveRow(s: State, i: nat, paths: Option<set<string>>, after: int): State
    requires i < |s.rows|
  {
    var r := s.rows[i];
    if !Wanted(r, paths, after) then s
    else match Lookup(s.decisions.Keys, r.identity)
      case Some(k) => Align(s, i, k)
      case None =>
        s.(decisions := s.decisions[KeyOf(r.identity) := Preserved(r.stamp)],
           rows := s.rows[i := r.(link := Some(KeyOf(r.identity)))])
  }

  function PreserveRows(s: State, paths: Option<set<string>>, after: int, lo: nat, hi: nat): (t: State)
    requires lo <= hi <= |s.rows|
    ensures |t.rows| == |s.rows|
  {
    if lo == hi then s else PreserveRow(PreserveRows(s, paths, after, lo, hi - 1), hi - 1, paths, after)
  }

  /******* What the rule does to each row *******/

  /** The rows of `[lo, hi)` a run exports: wanted, and no decision found. */
  predicate Exports(s: State, paths: Option<set<string>>, after: int, q: nat)
    requires q < |s.rows|
  {
    Wanted(s.rows[q], paths, after) && Lookup(s.decisions.Keys, s.rows[q].identity).None?
  }

  ghost predicate OnlyExports(s: State, paths: Option<set<string>>, after: int, lo: nat, hi: nat, t: State)
    requires lo <= hi <= |s.rows|
  {
    && (forall k | k in s.decisions :: k in t.decisions && t.decisions[k] == s.decisions[k])
    && (forall k | k in t.decisions && k !in s.decisions ::
          exists q :: lo <= q < hi && Exports(s, paths, after, q) && k == KeyOf(s.rows[q].identity))
    && forall q | lo <= q < hi && Exports(s, paths, after, q) ::
         var k := KeyOf(s.rows[q].identity); k in t.decisions && t.decisions[k] == Preserved(s.rows[q].stamp)
  }

  /** No earlier row of the run changes what a row finds: identities are one per row. */
  lemma FindsTheSame(s: State, paths: Option<set<string>>, after: int, lo: nat, hi: nat, t: State, q: nat)
    requires WellFormed(s) && lo <= hi <= q < |s.rows| && OnlyExports(s, paths, after, lo, hi, t)
    ensures Lookup(t.decisions.Keys, s.rows[q].identity) == Lookup(s.decisions.Keys, s.rows[q].identity)
    ensures Exports(s, paths, after, q) ==> KeyOf(s.rows[q].identity) !in t.decisions
  {
    var more := t.decisions.Keys - s.decisions.Keys;
    forall k | k in more
      ensures exists o: Identity :: !SameSlot(s.rows[q].identity, o) && k == KeyOf(o)
    {
      var e :| lo <= e < hi && Exports(s, paths, after, e) && k == KeyOf(s.rows[e].identity);
      assert !SameSlot(s.rows[e].identity, s.rows[q].identity);
    }
    LookupIgnoresOthers(s.decisions.Keys, more, s.rows[q].identity);
    assert t.decisions.Keys == s.decisions.Keys + more;
  }

  ghost predicate SameIdentities(a: seq<Row>, b: seq<Row>) {
    |a| == |b| && forall q | 0 <= q < |a| :: a[q].id == b[q].id && a[q].identity == b[q].identity
  }

  lemma {:induction false} RunKeepsIdentities(s: State, paths: Option<set<string>>, after: int, lo: nat, hi: nat)
    requires lo <= hi <= |s.rows|
    ensures SameIdentities(s.rows, PreserveRows(s, paths, after, lo, hi).rows)
  {
    if lo < hi {
      RunKeepsIdentities(s, paths, after, lo, hi - 1);
    }
  }

  lemma {:induction false} RunKeepsAccounts(s: State, paths: Option<set<string>>, after: int, lo: nat, hi: nat)
    requires NoPlaceholder(s.decisions) && lo <= hi <= |s.rows|
    ensures NoPlaceholder(PreserveRows(s, paths, after, lo, hi).decisions)
  {
    if lo < hi {
      RunKeepsAccounts(s, paths, after, lo, hi - 1);
      RowDecides(PreserveRows(s, paths, after, lo, hi - 1), hi - 1, paths, after);
    }
  }

  lemma RunWellFormed(s: State, paths: Option<set<string>>, after: int, lo: nat, hi: nat)
    requires WellFormed(s) && lo <= hi <= |s.rows|
    ensures WellFormed(PreserveRows(s, paths, after, lo, hi))
  {
    RunKeepsIdentities(s, paths, after, lo, hi);
    RunKeepsAccounts(s, paths, after, lo, hi);
    IdentitiesCarry(s.rows, PreserveRows(s, paths, after, lo, hi).rows);
  }

  lemma IdentitiesCarry(a: seq<Row>, b: seq<Row>)
    requires SameIdentities(a, b) && Ordered(a) && OnePerSlot(a)
    ensures Ordered(b) && OnePerSlot(b)
  {}

  /** What one row does to the decisions. */
  lemma RowDecides(t: State, i: nat, paths: Option<set<string>>, after: int)
    requires i < |t.rows|
    ensures PreserveRow(t, i, paths, after).decisions ==
              if Exports(t, paths, after, i) then t.decisions[KeyOf(t.rows[i].identity) := Preserved(t.rows[i].stamp)] else t.decisions
  {}

  lemma ExportStep(s: State, paths: Option<set<string>>, after: int, lo: nat, i: nat, t: State, u: State)
    requires WellFormed(s) && lo <= i < |s.rows| == |t.rows| && t.rows[i] == s.rows[i] && OnlyExports(s, paths, after, lo, i, t)
    requires u == PreserveRow(t, i, paths, after)
    ensures OnlyExports(s, paths, after, lo, i + 1, u)
  {
    FindsTheSame(s, paths, after, lo, i, t, i);
    RowDecides(t, i, paths, after);
    ExportsOneMore(s, paths, after, lo, i, t, u);
  }

  lemma ExportsOneMore(s: State, paths: Option<set<string>>, after: int, lo: nat, i: nat, t: State, u: State)
    requires lo <= i < |s.rows| && OnlyExports(s, paths, after, lo, i, t)
    requires Exports(s, paths, after, i) ==> KeyOf(s.rows[i].identity) !in t.decisions
    requires u.decisions ==
               if Exports(s, paths, after, i) then t.decisions[KeyOf(s.rows[i].identity) := Preserved(s.rows[i].stamp)] else t.decisions
    ensures OnlyExports(s, paths, after, lo, i + 1, u)
  {
    forall k | k in u.decisions && k !in s.decisions
      ensures exists q :: lo <= q < i + 1 && Exports(s, paths, after, q) && k == KeyOf(s.rows[q].identity)
    {
      if k in t.decisions {
        var q :| lo <= q < i && Exports(s, paths, after, q) && k == KeyOf(s.rows[q].identity);
      } else {
        assert Exports(s, paths, after, i);
      }
    }
  }

  lemma {:induction false} RunTouchesOnly(s: State, paths: Option<set<string>>, after: int, lo: nat, hi: nat)
    requires lo <= hi <= |s.rows|
    ensures forall q | 0 <= q < |s.rows| && !(lo <= q < hi) :: PreserveRows(s, paths, after, lo, hi).rows[q] == s.rows[q]
    ensures forall q | 0 <= q < |s.rows| :: PreserveRows(s, paths, after, lo, hi).rows[q].id == s.rows[q].id
  {
    if lo < hi {
      RunTouchesOnly(s, paths, after, lo, hi - 1);
    }
  }

  lemma {:induction false} RunExports(s: State, paths: Option<set<string>>, after: int, lo: nat, hi: nat)
    requires WellFormed(s) && lo <= hi <= |s.rows|
    ensures OnlyExports(s, paths, after, lo, hi, PreserveRows(s, paths, after, lo, hi))
  {
    if lo < hi {
      RunExports(s, paths, after, lo, hi - 1);
      RunTouchesOnly(s, paths, after, lo, hi - 1);
      ExportStep(s, paths, after, lo, hi - 1, PreserveRows(s, paths, after, lo, hi - 1), PreserveRows(s, paths, after, lo, hi));
    }
  }

  function Changes(s: State, t: State, n: nat): nat
    requires n <= |s.rows| && n <= |t.rows|
  {
    if n == 0 then 0 else
      Changes(s, t, n - 1) + if Preserved(s.rows[n - 1].stamp) != Preserved(t.rows[n - 1].stamp) then 1 else 0
  }

  /** What a run owes row `q`: the decision it already held, or the export of its own stamp. */
  ghost predicate Linked(s: State, t: State, q: nat)
    requires q < |s.rows| == |t.rows|
  {
    var found := Lookup(s.decisions.Keys, s.rows[q].identity);
    var k := if found.Some? then found.value else KeyOf(s.rows[q].identity);
    && t.rows[q].link == Some(k) && k in t.decisions
    && t.decisions[k] == (if found.Some? then s.decisions[k] else Preserved(s.rows[q].stamp))
    && Preserved(t.rows[q].stamp) == t.decisions[k]
    && (Preserved(s.rows[q].stamp) == t.decisions[k] ==>
          t.rows[q].stamp == s.rows[q].stamp && t.rows[q].mutationSeq == s.rows[q].mutationSeq)
    && (Preserved(s.rows[q].stamp) != t.decisions[k] ==>
          t.rows[q].stamp == StampOf(t.decisions[k]) && s.mutationSeq < t.rows[q].mutationSeq <= t.mutationSeq)
  }

  /**
  Every wanted row of the run is linked, to the decision it already held or to the export of its own
  stamp, and its stamp agrees with that decision; a row whose account changed has a number behind the
  counter's old value, a later one than the changed rows before it; every other row is untouched; and
  the mutation counter moved once per account change.
  */
  lemma {:induction false} RunLinksEveryRow(s: State, paths: Option<set<string>>, after: int, hi: nat)
    requires WellFormed(s) && hi <= |s.rows|
    ensures var t := PreserveRows(s, paths, after, 0, hi);
            && (forall q | 0 <= q < |s.rows| && !(q < hi && Wanted(s.rows[q], paths, after)) :: t.rows[q] == s.rows[q])
            && (forall q | 0 <= q < hi && Wanted(s.rows[q], paths, after) :: Linked(s, t, q))
            && t.mutationSeq == s.mutationSeq + Changes(s, t, |s.rows|)
            && t.alignedRows == s.alignedRows + Changes(s, t, |s.rows|)
            && InTurn(s, t)
  {
    if hi == 0 {
      SameRowsNoChange(s, s, |s.rows|);
    } else {
      var i := hi - 1;
      RunLinksEveryRow(s, paths, after, i);
      RunExports(s, paths, after, 0, i);
      RunWellFormed(s, paths, after, 0, i);
      LinkedStep(s, PreserveRows(s, paths, after, 0, i), PreserveRows(s, paths, after, 0, hi), paths, after, i);
      InTurnStep(s, PreserveRows(s, paths, after, 0, i), PreserveRows(s, paths, after, 0, hi), paths, after, i);
    }
  }

  ghost predicate Moved(s: State, t: State, q: nat)
    requires q < |s.rows| == |t.rows|
  {
    t.rows[q].stamp != s.rows[q].stamp
  }

  /** Rows whose stamp moved took their numbers in row order. */
  ghost predicate InTurn(s: State, t: State)
    requires |s.rows| == |t.rows|
  {
    forall a, b | 0 <= a < b < |s.rows| && Moved(s, t, a) && Moved(s, t, b) :: t.rows[a].mutationSeq < t.rows[b].mutationSeq
  }

  lemma InTurnStep(s: State, t: State, u: State, paths: Option<set<string>>, after: int, i: nat)
    requires i < |s.rows| == |t.rows| == |u.rows| && InTurn(s, t)
    requires u == PreserveRow(t, i, paths, after)
    requires forall q | 0 <= q < |s.rows| && !(q < i && Wanted(s.rows[q], paths, after)) :: t.rows[q] == s.rows[q]
    requires forall q | 0 <= q < i && Wanted(s.rows[q], paths, after) :: Linked(s, t, q)
    ensures InTurn(s, u)
  {
    RowFrame(t, i, paths, after);
    forall q | 0 <= q < |s.rows| && Moved(s, t, q) ensures q < i && t.rows[q].mutationSeq <= t.mutationSeq {
      assert Linked(s, t, q);
    }
    assert Moved(s, u, i) ==> u.rows[i].mutationSeq == t.mutationSeq + 1;
    forall q | 0 <= q < |s.rows| && q != i ensures Moved(s, u, q) <==> Moved(s, t, q) {
      assert u.rows[q] == t.rows[q];
    }
  }

  /** One more row of the run. */
  lemma LinkedStep(s: State, t: State, u: State, paths: Option<set<string>>, after: int, i: nat)
    requires WellFormed(s) && WellFormed(t) && i < |s.rows| == |t.rows| == |u.rows| && OnlyExports(s, paths, after, 0, i, t)
    requires u == PreserveRow(t, i, paths, after) && s.mutationSeq <= t.mutationSeq
    requires forall q | 0 <= q < |s.rows| && !(q < i && Wanted(s.rows[q], paths, after)) :: t.rows[q] == s.rows[q]
    requires forall q | 0 <= q < i && Wanted(s.rows[q], paths, after) :: Linked(s, t, q)
    ensures && (forall q | 0 <= q < |s.rows| && !(q < i + 1 && Wanted(s.rows[q], paths, after)) :: u.rows[q] == s.rows[q])
            && (forall q | 0 <= q < i + 1 && Wanted(s.rows[q], paths, after) :: Linked(s, u, q))
            && u.mutationSeq == t.mutationSeq + Changes(s, u, |s.rows|) - Changes(s, t, |s.rows|)
            && u.alignedRows == t.alignedRows + Changes(s, u, |s.rows|) - Changes(s, t, |s.rows|)
  {
    FindsTheSame(s, paths, after, 0, i, t, i);
    RowLinks(s, t, i, paths, after);
    RowFrame(t, i, paths, after);
    LinkedOneMore(s, t, u, paths, after, i);
    ChangesUpdate(s, t, u, i, |s.rows|);
  }

  lemma RowFrame(t: State, i: nat, paths: Option<set<string>>, after: int)
    requires i < |t.rows|
    ensures forall q | 0 <= q < |t.rows| && q != i :: PreserveRow(t, i, paths, after).rows[q] == t.rows[q]
  {}

  lemma LinkedOneMore(s: State, t: State, u: State, paths: Option<set<string>>, after: int, i: nat)
    requires i < |s.rows| == |t.rows| == |u.rows| && t.mutationSeq <= u.mutationSeq
    requires forall q | 0 <= q < |s.rows| && !(q < i && Wanted(s.rows[q], paths, after)) :: t.rows[q] == s.rows[q]
    requires forall q | 0 <= q < i && Wanted(s.rows[q], paths, after) :: Linked(s, t, q)
    requires forall q | 0 <= q < |t.rows| && q != i :: u.rows[q] == t.rows[q]
    requires forall k | k in t.decisions :: k in u.decisions && u.decisions[k] == t.decisions[k]
    requires if Wanted(s.rows[i], paths, after) then Linked(s, u, i) else u == t
    ensures forall q | 0 <= q < |s.rows| && !(q < i + 1 && Wanted(s.rows[q], paths, after)) :: u.rows[q] == s.rows[q]
    ensures forall q | 0 <= q < i + 1 && Wanted(s.rows[q], paths, after) :: Linked(s, u, q)
  {
    forall q | 0 <= q < i && Wanted(s.rows[q], paths, after) ensures Linked(s, u, q) {
      assert Linked(s, t, q) && u.rows[q] == t.rows[q];
    }
  }

  lemma RowLinks(s: State, t: State, i: nat, paths: Option<set<string>>, after: int)
    requires i < |s.rows| == |t.rows| && WellFormed(s) && WellFormed(t) && t.rows[i] == s.rows[i] && s.mutationSeq <= t.mutationSeq
    requires forall k | k in s.decisions :: k in t.decisions && t.decisions[k] == s.decisions[k]
    requires Lookup(t.decisions.Keys, s.rows[i].identity) == Lookup(s.decisions.Keys, s.rows[i].identity)
    requires Exports(s, paths, after, i) ==> KeyOf(s.rows[i].identity) !in t.decisions
    ensures var u := PreserveRow(t, i, paths, after);
            && (forall k | k in t.decisions :: k in u.decisions && u.decisions[k] == t.decisions[k])
            && (if Wanted(s.rows[i], paths, after) then Linked(s, u, i) else u == t)
            && u.mutationSeq == t.mutationSeq + (if Preserved(s.rows[i].stamp) != Preserved(u.rows[i].stamp) then 1 else 0)
            && u.alignedRows == t.alignedRows + (if Preserved(s.rows[i].stamp) != Preserved(u.rows[i].stamp) then 1 else 0)
  {}

  lemma {:induction false} SameRowsNoChange(s: State, t: State, n: nat)
    requires n <= |s.rows| && n <= |t.rows| && s.rows[..n] == t.rows[..n]
    ensures Changes(s, t, n) == 0
  {
    if n > 0 {
      assert s.rows[..n - 1] == s.rows[..n][..n - 1] == t.rows[..n - 1];
      assert s.rows[n - 1] == s.rows[..n][n - 1];
      SameRowsNoChange(s, t, n - 1);
    }
  }

  lemma {:induction false} ChangesUpdate(s: State, t: State, u: State, i: nat, n: nat)
    requires n <= |s.rows| == |t.rows| == |u.rows| && i < |s.rows|
    requires forall q | 0 <= q < |t.rows| && q != i :: t.rows[q] == u.rows[q]
    requires t.rows[i] == s.rows[i]
    ensures Changes(s, u, n) == Changes(s, t, n)
              + if i < n && Preserved(s.rows[i].stamp) != Preserved(u.rows[i].stamp) then 1 else 0
  {
    if n > 0 {
      ChangesUpdate(s, t, u, i, n - 1);
    }
  }

  /******* The run in the rows' own fields *******/

  /** A stamp that names a real account. */
  ghost predicate Real(s: RawStamp) { s.Text? && s.s != "" && s.s != "unattributed" }

  /** The key a row is linked to: its own, or that of a decision at its location on an unknown split. */
  ghost function LinkOf(decisions: map<DecisionKey, Account>, i: Identity): DecisionKey {
    match i
    case Keyed(m, r) => KeyedKey(m, r)
    case Physical(l, o, d, _) => PhysicalKey(l, o, d)
    case Legacy(l, o, p) =>
      var unknown := LegacyKey(l, o, Projection(p.fields, None, None));
      if LegacyKey(l, o, p) !in decisions && unknown in decisions then unknown else LegacyKey(l, o, p)
  }

  /**
  What a linked row ends as: its key decided, as before or on its own real account; that account as its stamp,
  a real one gone where the decision has none; and a new number exactly when the stamp moved.
  */
  ghost predicate EndsAs(s: State, t: State, q: nat)
    requires q < |s.rows| == |t.rows|
  {
    var r, u := s.rows[q], t.rows[q];
    var k := LinkOf(s.decisions, r.identity);
    && u.id == r.id && u.path == r.path && u.identity == r.identity && u.link == Some(k) && k in t.decisions
    && t.decisions[k] == (if k in s.decisions then s.decisions[k] else if Real(r.stamp) then Some(r.stamp.s) else None)
    && u.stamp == (if t.decisions[k].Some? then Text(t.decisions[k].value) else if Real(r.stamp) then NoStamp else r.stamp)
    && if u.stamp == r.stamp then u.mutationSeq == r.mutationSeq else s.mutationSeq < u.mutationSeq <= t.mutationSeq
  }

  /** A whole run over the first `hi` rows: its rows, numbers and decisions. */
  ghost predicate RunIs(s: State, t: State, paths: Option<set<string>>, after: int, hi: nat)
    requires hi <= |s.rows|
  {
    && |t.rows| == |s.rows| && RowsEnd(s, t, paths, after, hi)
    && InTurn(s, t) && OneNumberEach(s, t) && DecidesLinked(s, t, hi)
  }

  /** Unlinked rows behind `after` on the named paths end as they should, and no other row changes. */
  ghost predicate RowsEnd(s: State, t: State, paths: Option<set<string>>, after: int, hi: nat)
    requires hi <= |s.rows| == |t.rows|
  {
    forall q | 0 <= q < |s.rows| ::
      var r := s.rows[q];
      if q < hi && r.link.None? && r.id > after && (paths.None? || r.path in paths.value) then EndsAs(s, t, q) else t.rows[q] == r
  }

  /** Both counters moved by the number of rows whose stamp did. */
  ghost predicate OneNumberEach(s: State, t: State)
    requires |s.rows| == |t.rows|
  {
    && t.mutationSeq == s.mutationSeq + |MovedBefore(s, t, |s.rows|)|
    && t.alignedRows == s.alignedRows + |MovedBefore(s, t, |s.rows|)|
  }

  ghost function MovedBefore(s: State, t: State, n: nat): set<nat>
    requires n <= |s.rows| == |t.rows|
  {
    set q: nat | q < n && Moved(s, t, q)
  }

  /** Decisions stay, and every new one has a row linked to it that was not. */
  ghost predicate DecidesLinked(s: State, t: State, hi: nat)
    requires hi <= |s.rows| == |t.rows|
  {
    && (forall k | k in s.decisions :: k in t.decisions && t.decisions[k] == s.decisions[k])
    && (forall k | k in t.decisions && k !in s.decisions :: exists q :: 0 <= q < hi && s.rows[q].link.None? && t.rows[q].link == Some(k))
  }

  lemma RunInFields(s: State, paths: Option<set<string>>, after: int, hi: nat)
    requires WellFormed(s) && hi <= |s.rows|
    ensures RunIs(s, PreserveRows(s, paths, after, 0, hi), paths, after, hi)
  {
    var t := PreserveRows(s, paths, after, 0, hi);
    RunLinksEveryRow(s, paths, after, hi);
    RunExports(s, paths, after, 0, hi);
    RunKeepsRows(s, paths, after, hi);
    LinkedRowsEnd(s, t, paths, after, hi);
    LinkedRowsMove(s, t, paths, after, hi);
    ChangesAreMoves(s, t, |s.rows|);
    ExportsAreLinked(s, t, paths, after, hi);
  }

  ghost predicate KeepsRow(s: State, t: State, q: nat)
    requires q < |s.rows| == |t.rows|
  {
    t.rows[q].id == s.rows[q].id && t.rows[q].path == s.rows[q].path && t.rows[q].identity == s.rows[q].identity
  }

  ghost predicate KeepsRows(s: State, t: State)
    requires |s.rows| == |t.rows|
  {
    forall q | 0 <= q < |s.rows| :: KeepsRow(s, t, q)
  }

  /** The run's own account of the rows: what `RunLinksEveryRow` proves. */
  ghost predicate LinksRows(s: State, t: State, paths: Option<set<string>>, after: int, hi: nat)
    requires hi <= |s.rows| == |t.rows|
  {
    && (forall q | 0 <= q < |s.rows| && !(q < hi && Wanted(s.rows[q], paths, after)) :: t.rows[q] == s.rows[q])
    && (forall q | 0 <= q < hi && Wanted(s.rows[q], paths, after) :: Linked(s, t, q))
  }

  lemma LinkedRowsEnd(s: State, t: State, paths: Option<set<string>>, after: int, hi: nat)
    requires hi <= |s.rows| == |t.rows| && OnePerSlot(s.rows) && LinksRows(s, t, paths, after, hi)
    requires KeepsRows(s, t)
    ensures RowsEnd(s, t, paths, after, hi)
  {
    forall q | 0 <= q < hi && Wanted(s.rows[q], paths, after) ensures EndsAs(s, t, q) {
      assert KeepsRow(s, t, q);
      FindsItsLink(s.decisions, s.rows[q].identity);
    }
  }

  lemma LinkedRowsMove(s: State, t: State, paths: Option<set<string>>, after: int, hi: nat)
    requires hi <= |s.rows| == |t.rows| && LinksRows(s, t, paths, after, hi)
    ensures forall q | 0 <= q < |s.rows| :: Moved(s, t, q) <==> Preserved(s.rows[q].stamp) != Preserved(t.rows[q].stamp)
  {
    forall q | 0 <= q < |s.rows| ensures Moved(s, t, q) <==> Preserved(s.rows[q].stamp) != Preserved(t.rows[q].stamp) {
      if q < hi && Wanted(s.rows[q], paths, after) {
        assert Linked(s, t, q);
      } else {
        assert t.rows[q] == s.rows[q];
      }
    }
  }

  lemma ExportsAreLinked(s: State, t: State, paths: Option<set<string>>, after: int, hi: nat)
    requires hi <= |s.rows| == |t.rows| && LinksRows(s, t, paths, after, hi) && OnlyExports(s, paths, after, 0, hi, t)
    ensures DecidesLinked(s, t, hi)
  {
    forall k | k in t.decisions && k !in s.decisions
      ensures exists q :: 0 <= q < hi && s.rows[q].link.None? && t.rows[q].link == Some(k)
    {
      var q :| 0 <= q < hi && Exports(s, paths, after, q) && k == KeyOf(s.rows[q].identity);
      assert Linked(s, t, q);
    }
  }

  lemma {:induction false} RunKeepsRows(s: State, paths: Option<set<string>>, after: int, hi: nat)
    requires hi <= |s.rows|
    ensures KeepsRows(s, PreserveRows(s, paths, after, 0, hi))
  {
    if hi > 0 {
      RunKeepsRows(s, paths, after, hi - 1);
      RowKeeps(s, PreserveRows(s, paths, after, 0, hi - 1), hi - 1, paths, after);
    }
  }

  lemma RowKeeps(s: State, t: State, i: nat, paths: Option<set<string>>, after: int)
    requires |s.rows| == |t.rows| && KeepsRows(s, t) && i < |t.rows|
    ensures KeepsRows(s, PreserveRow(t, i, paths, after))
  {
    RowFrame(t, i, paths, after);
    var u := PreserveRow(t, i, paths, after);
    forall q | 0 <= q < |s.rows| ensures KeepsRow(s, u, q) {
      assert KeepsRow(s, t, q) && KeepsRow(t, u, q);
    }
  }

  lemma FindsItsLink(decisions: map<DecisionKey, Account>, i: Identity)
    requires !i.Physical?
    ensures var found := Lookup(decisions.Keys, i);
            && (found.Some? <==> LinkOf(decisions, i) in decisions)
            && LinkOf(decisions, i) == if found.Some? then found.value else KeyOf(i)
  {}

  lemma {:induction false} ChangesAreMoves(s: State, t: State, n: nat)
    requires n <= |s.rows| == |t.rows|
    requires forall q | 0 <= q < n :: Moved(s, t, q) <==> Preserved(s.rows[q].stamp) != Preserved(t.rows[q].stamp)
    ensures Changes(s, t, n) == |MovedBefore(s, t, n)|
  {
    if n > 0 {
      ChangesAreMoves(s, t, n - 1);
      OneMoreMove(s, t, n - 1);
    }
  }

  lemma OneMoreMove(s: State, t: State, n: nat)
    requires n < |s.rows| == |t.rows|
    ensures |MovedBefore(s, t, n + 1)| == |MovedBefore(s, t, n)| + if Moved(s, t, n) then 1 else 0
  {
    assert MovedBefore(s, t, n + 1) == MovedBefore(s, t, n) + if Moved(s, t, n) then {n} else {};
  }

  /******* Splitting a run *******/

  lemma {:induction false} RunSplits(s: State, paths: Option<set<string>>, after: int, lo: nat, mid: nat, hi: nat)
    requires lo <= mid <= hi <= |s.rows|
    ensures PreserveRows(s, paths, after, lo, hi)
         == PreserveRows(PreserveRows(s, paths, after, lo, mid), paths, after, mid, hi)
  {
    if mid < hi {
      RunSplits(s, paths, after, lo, mid, hi - 1);
    }
  }

  lemma {:induction false} RunSkips(s: State, paths: Option<set<string>>, after: int, lo: nat, hi: nat)
    requires lo <= hi <= |s.rows| && forall q | lo <= q < hi :: !Wanted(s.rows[q], paths, after)
    ensures PreserveRows(s, paths, after, lo, hi) == s
  {
    if lo < hi {
      RunSkips(s, paths, after, lo, hi - 1);
    }
  }

  /**
  Two runs chained through the last id end exactly where one unlimited run ends: same links, same
  stamps, same decisions, same counters.
  */
  lemma ChainedRunsAreOneRun(s: State, paths: Option<set<string>>, after: int, mid: nat, lastId: int, hi: nat)
    requires WellFormed(s) && mid <= hi <= |s.rows|
    requires if mid == 0 then lastId == after else lastId == s.rows[mid - 1].id && after < lastId
    ensures PreserveRows(PreserveRows(s, paths, after, 0, mid), paths, lastId, 0, hi)
         == PreserveRows(s, paths, after, 0, hi)
  {
    var t := PreserveRows(s, paths, after, 0, mid);
    RunTouchesOnly(s, paths, after, 0, mid);
    RunSplits(s, paths, after, 0, mid, hi);
    RunSplits(t, paths, lastId, 0, mid, hi);
    RunSkips(t, paths, lastId, 0, mid);
    SameWanted(t, paths, after, lastId, mid, hi);
  }

  lemma {:induction false} SameWanted(s: State, paths: Option<set<string>>, after: int, later: int, lo: nat, hi: nat)
    requires lo <= hi <= |s.rows| && forall q | lo <= q < hi :: s.rows[q].id > after <==> s.rows[q].id > later
    ensures PreserveRows(s, paths, after, lo, hi) == PreserveRows(s, paths, later, lo, hi)
  {
    if lo < hi {
      SameWanted(s, paths, after, later, lo, hi - 1);
      RunTouchesOnly(s, paths, after, lo, hi - 1);
    }
  }

  /******* A run that dies after exporting *******/

  /** `d` holds what was decided, and some of the exports of the rows before `hi`: what a replay finds after a crash. */
  ghost predicate PartlyExported(s: State, paths: Option<set<string>>, after: int, hi: nat, d: map<DecisionKey, Account>)
    requires hi <= |s.rows|
  {
    && (forall k | k in s.decisions :: k in d && d[k] == s.decisions[k])
    && forall k | k in d && k !in s.decisions ::
         exists q :: 0 <= q < hi && Exports(s, paths, after, q) && k == KeyOf(s.rows[q].identity) && d[k] == Preserved(s.rows[q].stamp)
  }

  /** The export of row `n` survived. */
  ghost predicate Survived(s: State, n: nat, d: map<DecisionKey, Account>)
    requires n < |s.rows|
  {
    KeyOf(s.rows[n].identity) in d && KeyOf(s.rows[n].identity) !in s.decisions
  }

  lemma SurvivorIsExport(s: State, paths: Option<set<string>>, after: int, hi: nat, n: nat, d: map<DecisionKey, Account>)
    requires WellFormed(s) && n < hi <= |s.rows| && PartlyExported(s, paths, after, hi, d) && Survived(s, n, d)
    ensures Exports(s, paths, after, n) && d[KeyOf(s.rows[n].identity)] == Preserved(s.rows[n].stamp)
  {
    var k := KeyOf(s.rows[n].identity);
    var q :| 0 <= q < hi && Exports(s, paths, after, q) && k == KeyOf(s.rows[q].identity) && d[k] == Preserved(s.rows[q].stamp);
    SameKeySameRow(s, n, q);
  }

  /** What was added belongs to other rows, unless it is the row's own surviving export. */
  lemma AddedElsewhere(s: State, paths: Option<set<string>>, after: int, hi: nat, n: nat, t: State,
                       d: map<DecisionKey, Account>, k: DecisionKey)
    requires WellFormed(s) && n < hi <= |s.rows| && OnlyExports(s, paths, after, 0, n, t) && PartlyExported(s, paths, after, hi, d)
    requires !Survived(s, n, d) && (k in t.decisions || k in d) && k !in s.decisions
    ensures exists o: Identity :: !SameSlot(s.rows[n].identity, o) && k == KeyOf(o)
  {
    var q: nat;
    if k in d {
      q :| 0 <= q < hi && Exports(s, paths, after, q) && k == KeyOf(s.rows[q].identity) && d[k] == Preserved(s.rows[q].stamp);
    } else {
      q :| 0 <= q < n && Exports(s, paths, after, q) && k == KeyOf(s.rows[q].identity);
    }
    OtherSlot(s, n, q);
  }

  /** A row whose export did not survive finds what it found before. */
  lemma RecoveredLookup(s: State, paths: Option<set<string>>, after: int, hi: nat, n: nat, t: State, d: map<DecisionKey, Account>)
    requires WellFormed(s) && n < hi <= |s.rows| && OnlyExports(s, paths, after, 0, n, t) && PartlyExported(s, paths, after, hi, d)
    requires !Survived(s, n, d)
    ensures Lookup((t.decisions + d).Keys, s.rows[n].identity) == Lookup(s.decisions.Keys, s.rows[n].identity)
  {
    var more := (t.decisions + d).Keys - s.decisions.Keys;
    forall k | k in more ensures exists o: Identity :: !SameSlot(s.rows[n].identity, o) && k == KeyOf(o) {
      AddedElsewhere(s, paths, after, hi, n, t, d, k);
    }
    LookupIgnoresOthers(s.decisions.Keys, more, s.rows[n].identity);
    assert (t.decisions + d).Keys == s.decisions.Keys + more;
  }

  lemma OtherSlot(s: State, a: nat, b: nat)
    requires WellFormed(s) && a < |s.rows| && b < |s.rows| && a != b
    ensures !SameSlot(s.rows[a].identity, s.rows[b].identity)
  {
    assert a < b ==> !SameSlot(s.rows[a].identity, s.rows[b].identity);
    assert b < a ==> !SameSlot(s.rows[b].identity, s.rows[a].identity);
  }

  lemma SameKeySameRow(s: State, a: nat, b: nat)
    requires WellFormed(s) && a < |s.rows| && b < |s.rows| && KeyOf(s.rows[a].identity) == KeyOf(s.rows[b].identity)
    ensures a == b
  {
    if a != b { OtherSlot(s, a, b); }
  }

  lemma PutUnder(a: map<DecisionKey, Account>, d: map<DecisionKey, Account>, k: DecisionKey, v: Account)
    ensures k !in d ==> a[k := v] + d == (a + d)[k := v]
    ensures k in d && d[k] == v ==> a[k := v] + d == a + d
  {}

  lemma Absorbs(a: map<DecisionKey, Account>, d: map<DecisionKey, Account>)
    requires forall k | k in d :: k in a && a[k] == d[k]
    ensures a + d == a
  {}

  /** The same row over a table that already holds `d`: the same step, and `d` stays. */
  lemma RecoveredRow(s: State, paths: Option<set<string>>, after: int, hi: nat, n: nat, t: State, d: map<DecisionKey, Account>)
    requires WellFormed(s) && n < hi <= |s.rows| == |t.rows| && t.rows[n] == s.rows[n]
    requires OnlyExports(s, paths, after, 0, n, t) && PartlyExported(s, paths, after, hi, d)
    ensures var t' := t.(decisions := t.decisions + d);
            var u := PreserveRow(t, n, paths, after);
            PreserveRow(t', n, paths, after) == u.(decisions := u.decisions + d)
  {
    FindsTheSame(s, paths, after, 0, n, t, n);
    if Survived(s, n, d) {
      SurvivorIsExport(s, paths, after, hi, n, d);
      FindsItself(s, n, t.decisions + d);
      StepOfSurvivor(t, n, paths, after, d);
    } else {
      RecoveredLookup(s, paths, after, hi, n, t, d);
      LookupIsKept(s, paths, after, hi, n, t, d);
      StepUnder(t, n, paths, after, d);
    }
  }

  lemma StepUnder(t: State, n: nat, paths: Option<set<string>>, after: int, d: map<DecisionKey, Account>)
    requires n < |t.rows| && Lookup((t.decisions + d).Keys, t.rows[n].identity) == Lookup(t.decisions.Keys, t.rows[n].identity)
    requires var found := Lookup(t.decisions.Keys, t.rows[n].identity);
             if found.None? then KeyOf(t.rows[n].identity) !in d
             else (t.decisions + d)[found.value] == t.decisions[found.value]
    ensures var u := PreserveRow(t, n, paths, after);
            PreserveRow(t.(decisions := t.decisions + d), n, paths, after) == u.(decisions := u.decisions + d)
  {
    PutUnder(t.decisions, d, KeyOf(t.rows[n].identity), Preserved(t.rows[n].stamp));
  }

  lemma StepOfSurvivor(t: State, n: nat, paths: Option<set<string>>, after: int, d: map<DecisionKey, Account>)
    requires n < |t.rows| && Exports(t, paths, after, n)
    requires var k := KeyOf(t.rows[n].identity);
             k in d && d[k] == Preserved(t.rows[n].stamp) && Lookup((t.decisions + d).Keys, t.rows[n].identity) == Some(k)
    ensures var u := PreserveRow(t, n, paths, after);
            PreserveRow(t.(decisions := t.decisions + d), n, paths, after) == u.(decisions := u.decisions + d)
  {
    PutUnder(t.decisions, d, KeyOf(t.rows[n].identity), Preserved(t.rows[n].stamp));
  }

  lemma FindsItself(s: State, n: nat, d: map<DecisionKey, Account>)
    requires WellFormed(s) && n < |s.rows| && KeyOf(s.rows[n].identity) in d
    ensures Lookup(d.Keys, s.rows[n].identity) == Some(KeyOf(s.rows[n].identity))
  {}

  /** A decision found before the run is still what both tables hold. */
  lemma LookupIsKept(s: State, paths: Option<set<string>>, after: int, hi: nat, n: nat, t: State, d: map<DecisionKey, Account>)
    requires n < hi <= |s.rows| && OnlyExports(s, paths, after, 0, n, t) && PartlyExported(s, paths, after, hi, d)
    ensures var found := Lookup(s.decisions.Keys, s.rows[n].identity);
            if found.None? then Survived(s, n, d) || KeyOf(s.rows[n].identity) !in d
            else found.value in t.decisions && (t.decisions + d)[found.value] == t.decisions[found.value]
  {
    var found := Lookup(s.decisions.Keys, s.rows[n].identity);
    if found.Some? {
      assert found.value in s.decisions;
    }
  }

  lemma {:induction false} RecoveredRun(s: State, paths: Option<set<string>>, after: int, hi: nat, n: nat, d: map<DecisionKey, Account>)
    requires WellFormed(s) && n <= hi <= |s.rows| && PartlyExported(s, paths, after, hi, d)
    ensures var t := PreserveRows(s, paths, after, 0, n);
            PreserveRows(s.(decisions := d), paths, after, 0, n) == t.(decisions := t.decisions + d)
  {
    if n == 0 {
      assert s.decisions + d == d;
    } else {
      RecoveredRun(s, paths, after, hi, n - 1, d);
      RunExports(s, paths, after, 0, n - 1);
      RunTouchesOnly(s, paths, after, 0, n - 1);
      RecoveredRow(s, paths, after, hi, n - 1, PreserveRows(s, paths, after, 0, n - 1), d);
    }
  }

  /**
  A run that died with any of its exports journaled and none of its links committed is not lost: once the
  exports are replayed, a rerun ends in the rows, decisions and counters of a run that was never interrupted.
  */
  lemma RerunAfterCrash(s: State, paths: Option<set<string>>, after: int, hi: nat, d: map<DecisionKey, Account>)
    requires WellFormed(s) && hi <= |s.rows| && PartlyExported(s, paths, after, hi, d)
    ensures PreserveRows(s.(decisions := d), paths, after, 0, hi) == PreserveRows(s, paths, after, 0, hi)
  {
    RecoveredRun(s, paths, after, hi, hi, d);
    RunExports(s, paths, after, 0, hi);
    ExportsAreAll(s, paths, after, hi, PreserveRows(s, paths, after, 0, hi), d);
  }

  lemma ExportsAreAll(s: State, paths: Option<set<string>>, after: int, hi: nat, t: State, d: map<DecisionKey, Account>)
    requires hi <= |s.rows| && OnlyExports(s, paths, after, 0, hi, t) && PartlyExported(s, paths, after, hi, d)
    ensures t.decisions + d == t.decisions
  {
    forall k | k in d ensures k in t.decisions && t.decisions[k] == d[k] {
      if k !in s.decisions {
        var q :| 0 <= q < hi && Exports(s, paths, after, q) && k == KeyOf(s.rows[q].identity) && d[k] == Preserved(s.rows[q].stamp);
      }
    }
    Absorbs(t.decisions, d);
  }

  /******* One chunk: look every row up first, export afterwards *******/

  /** The state after the first pass of a chunk over rows before `n`: aligned rows done, exports untouched. */
  ghost predicate Aligned(s: State, paths: Option<set<string>>, after: int, n: nat, c: State)
    requires n <= |s.rows|
  {
    AlignedTo(s, paths, after, n, PreserveRows(s, paths, after, 0, n), c)
  }

  /** The same against `f`, where the one-by-one rule stands. */
  ghost predicate AlignedTo(s: State, paths: Option<set<string>>, after: int, n: nat, f: State, c: State) {
    && |c.rows| == |s.rows| == |f.rows| && c.decisions == s.decisions
    && c.mutationSeq == f.mutationSeq && c.alignedRows == f.alignedRows
    && forall q | 0 <= q < |s.rows| :: c.rows[q] == if q < n && !Exports(s, paths, after, q) then f.rows[q] else s.rows[q]
  }

  /** Rows that are not wanted move the first pass along without a step. */
  lemma AlignedSkips(s: State, paths: Option<set<string>>, after: int, n: nat, i: nat, c: State)
    requires n <= i <= |s.rows| && Aligned(s, paths, after, n, c)
    requires forall q | n <= q < i :: !Wanted(s.rows[q], paths, after)
    ensures Aligned(s, paths, after, i, c)
  {
    RunTouchesOnly(s, paths, after, 0, n);
    RunSplits(s, paths, after, 0, n, i);
    RunSkips(PreserveRows(s, paths, after, 0, n), paths, after, n, i);
  }

  /** Looking a row up before the exports of its chunk finds what the one-by-one rule finds. */
  lemma AlignedStep(s: State, paths: Option<set<string>>, after: int, i: nat, c: State)
    requires WellFormed(s) && i < |s.rows| && Aligned(s, paths, after, i, c) && Wanted(s.rows[i], paths, after)
    ensures var found := Lookup(s.decisions.Keys, s.rows[i].identity);
            Aligned(s, paths, after, i + 1, if found.Some? then Align(c, i, found.value) else c)
  {
    var f := PreserveRows(s, paths, after, 0, i);
    RunTouchesOnly(s, paths, after, 0, i);
    RunExports(s, paths, after, 0, i);
    FindsTheSame(s, paths, after, 0, i, f, i);
    var found := Lookup(s.decisions.Keys, s.rows[i].identity);
    if found.Some? {
      FoundAligns(s, paths, after, i, f, c, found.value);
    } else {
      ExportWaits(s, paths, after, i, f, c);
    }
  }

  lemma FoundAligns(s: State, paths: Option<set<string>>, after: int, i: nat, f: State, c: State, k: DecisionKey)
    requires i < |s.rows| && AlignedTo(s, paths, after, i, f, c) && f.rows[i] == s.rows[i] && Wanted(s.rows[i], paths, after)
    requires Lookup(s.decisions.Keys, s.rows[i].identity) == Lookup(f.decisions.Keys, s.rows[i].identity) == Some(k)
    requires f.decisions[k] == s.decisions[k]
    ensures AlignedTo(s, paths, after, i + 1, PreserveRow(f, i, paths, after), Align(c, i, k))
  {}

  lemma ExportWaits(s: State, paths: Option<set<string>>, after: int, i: nat, f: State, c: State)
    requires i < |s.rows| && AlignedTo(s, paths, after, i, f, c) && f.rows[i] == s.rows[i] && Wanted(s.rows[i], paths, after)
    requires Lookup(s.decisions.Keys, s.rows[i].identity) == Lookup(f.decisions.Keys, s.rows[i].identity) == None
    ensures AlignedTo(s, paths, after, i + 1, PreserveRow(f, i, paths, after), c)
  {}

  lemma {:induction false} ExportedRow(s: State, paths: Option<set<string>>, after: int, hi: nat, q: nat)
    requires WellFormed(s) && q < hi <= |s.rows| && Exports(s, paths, after, q)
    ensures PreserveRows(s, paths, after, 0, hi).rows[q] == s.rows[q].(link := Some(KeyOf(s.rows[q].identity)))
  {
    var t := PreserveRows(s, paths, after, 0, q);
    RunTouchesOnly(s, paths, after, 0, q);
    RunExports(s, paths, after, 0, q);
    FindsTheSame(s, paths, after, 0, q, t, q);
    RunSplits(s, paths, after, 0, q + 1, hi);
    RunTouchesOnly(PreserveRows(s, paths, after, 0, q + 1), paths, after, q + 1, hi);
  }

  lemma OnlyExportsDetermines(s: State, paths: Option<set<string>>, after: int, hi: nat, t: State, u: State)
    requires hi <= |s.rows| && OnlyExports(s, paths, after, 0, hi, t) && OnlyExports(s, paths, after, 0, hi, u)
    ensures t.decisions == u.decisions
  {
    SubDecisions(s, paths, after, hi, t, u);
    SubDecisions(s, paths, after, hi, u, t);
  }

  lemma SubDecisions(s: State, paths: Option<set<string>>, after: int, hi: nat, t: State, u: State)
    requires hi <= |s.rows| && OnlyExports(s, paths, after, 0, hi, t) && OnlyExports(s, paths, after, 0, hi, u)
    ensures forall k | k in t.decisions :: k in u.decisions && u.decisions[k] == t.decisions[k]
  {
    forall k | k in t.decisions ensures k in u.decisions && u.decisions[k] == t.decisions[k] {
      if k !in s.decisions {
        var q :| 0 <= q < hi && Exports(s, paths, after, q) && k == KeyOf(s.rows[q].identity);
      }
    }
  }

  /** All exports decided and linked: the chunk is where the one-by-one rule is. */
  lemma ChunkIsARun(s: State, paths: Option<set<string>>, after: int, n: nat, c: State, t: State)
    requires WellFormed(s) && n <= |s.rows| && Aligned(s, paths, after, n, c) && OnlyExports(s, paths, after, 0, n, t)
    requires t.mutationSeq == c.mutationSeq && t.alignedRows == c.alignedRows && |t.rows| == |s.rows|
    requires forall q | 0 <= q < |s.rows| :: t.rows[q] == if q < n && Exports(s, paths, after, q)
               then s.rows[q].(link := Some(KeyOf(s.rows[q].identity))) else c.rows[q]
    ensures t == PreserveRows(s, paths, after, 0, n)
  {
    var f := PreserveRows(s, paths, after, 0, n);
    RunExports(s, paths, after, 0, n);
    RunTouchesOnly(s, paths, after, 0, n);
    OnlyExportsDetermines(s, paths, after, n, t, f);
    forall q | 0 <= q < |s.rows| ensures t.rows[q] == f.rows[q] {
      if q < n && Exports(s, paths, after, q) { ExportedRow(s, paths, after, n, q); }
    }
    assert t.rows == f.rows;
  }

  /******* The chunked loop *******/

  /** Some row from index `i` on is still wanted. */
  ghost predicate WantedFrom(s: State, paths: Option<set<string>>, after: int, i: nat) {
    exists q :: i <= q < |s.rows| && Wanted(s.rows[q], paths, after)
  }

  function CountWanted(s: State, paths: Option<set<string>>, after: int, hi: nat): nat
    requires hi <= |s.rows|
  {
    if hi == 0 then 0 else CountWanted(s, paths, after, hi - 1) + if Wanted(s.rows[hi - 1], paths, after) then 1 else 0
  }

  ghost function UnlinkedBefore(s: State, paths: Option<set<string>>, after: int, hi: nat): set<nat>
    requires hi <= |s.rows|
  {
    set q: nat | q < hi && s.rows[q].link.None? && s.rows[q].id > after && (paths.None? || s.rows[q].path in paths.value)
  }

  /** The count of rows a run handles: the unlinked ones behind `after` on the named paths. */
  lemma {:induction false} CountWantedIs(s: State, paths: Option<set<string>>, after: int, hi: nat)
    requires hi <= |s.rows|
    ensures CountWanted(s, paths, after, hi) == |UnlinkedBefore(s, paths, after, hi)|
  {
    if hi > 0 {
      CountWantedIs(s, paths, after, hi - 1);
      var less := UnlinkedBefore(s, paths, after, hi - 1);
      assert UnlinkedBefore(s, paths, after, hi) == less + if Wanted(s.rows[hi - 1], paths, after) then {hi - 1} else {};
    }
  }

  datatype Result = Result(saved: nat, aligned: nat, exported: nat, lastId: int, remaining: bool)

  class Cache {
    var rows: seq<Row>
    var decisions: map<DecisionKey, Account>
    var mutationSeq: nat
    var alignedRows: nat

    function Contents(): State
      reads this
    {
      State(rows, decisions, mutationSeq, alignedRows)
    }

    /** Link an unlinked row to a decision; tells whether the account changed. */
    method AlignRow(i: nat, k: DecisionKey) returns (changed: bool)
      requires i < |rows| && k in decisions
      modifies this
      ensures Contents() == Align(old(Contents()), i, k)
      ensures changed <==> Preserved(old(rows)[i].stamp) != decisions[k]
      ensures decisions == old(decisions) && mutationSeq == old(mutationSeq) + (if changed then 1 else 0)
      ensures var was := old(rows)[i];
              rows == old(rows)[i := if !changed then was.(link := Some(k)) else
                                       Row(was.id, was.path, was.identity,
                                           if decisions[k].Some? then Text(decisions[k].value) else NoStamp, Some(k), mutationSeq)]
    {
      var r := rows[i];
      changed := Preserved(r.stamp) != decisions[k];
      if changed {
        mutationSeq := mutationSeq + 1;
        rows := rows[i := r.(stamp := StampOf(decisions[k]), link := Some(k), mutationSeq := mutationSeq)];
        alignedRows := alignedRows + 1;
      } else {
        rows := rows[i := r.(link := Some(k))];
      }
    }

    /**
    Fetch the wanted rows in `id` order, at most `size` of them: they are the wanted rows before `end`,
    and the last of them is the one just before it.
    */
    method FetchUnlinked(paths: Option<set<string>>, after: int, size: nat) returns (fetched: nat, end: nat)
      ensures end <= |rows| && fetched <= size
      ensures fetched == CountWanted(Contents(), paths, after, end)
      ensures if fetched == 0 then end == 0 else end > 0 && Wanted(rows[end - 1], paths, after)
      ensures fetched < size ==> !WantedFrom(Contents(), paths, after, end)
    {
      fetched, end := 0, 0;
      var i := 0;
      while i < |rows| && fetched < size
        invariant end <= i <= |rows| && fetched <= size
        invariant fetched == CountWanted(Contents(), paths, after, end)
        invariant fetched == CountWanted(Contents(), paths, after, i)
        invariant if fetched == 0 then end == 0 else end > 0 && Wanted(rows[end - 1], paths, after)
        invariant forall q | end <= q < i :: !Wanted(rows[q], paths, after)
      {
        if Wanted(rows[i], paths, after) {
          fetched, end := fetched + 1, i + 1;
        }
        i := i + 1;
      }
    }

    /** Align a fetched row when its identity already holds a decision. */
    method AlignIfFound(i: nat, paths: Option<set<string>>, after: int, ghost s: State) returns (found: bool)
      requires WellFormed(s) && i < |s.rows| && Aligned(s, paths, after, i, Contents()) && Wanted(rows[i], paths, after)
      modifies this
      ensures Aligned(s, paths, after, i + 1, Contents()) && (found <==> !Exports(s, paths, after, i))
    {
      AlignedStep(s, paths, after, i, Contents());
      var k := Lookup(decisions.Keys, rows[i].identity);
      found := k.Some?;
      if found {
        var _ := AlignRow(i, k.value);
      }
    }

    /** First pass: align every fetched row whose identity already holds a decision. */
    method AlignFound(paths: Option<set<string>>, after: int, end: nat)
      returns (toExport: seq<nat>, aligned: nat)
      requires end <= |rows| && WellFormed(Contents())
      modifies this
      ensures Aligned(old(Contents()), paths, after, end, Contents())
      ensures toExport == ExportList(old(Contents()), paths, after, end)
      ensures aligned + |toExport| == CountWanted(old(Contents()), paths, after, end)
    {
      toExport, aligned := [], 0;
      ghost var s := Contents();
      for i := 0 to end
        invariant Aligned(s, paths, after, i, Contents())
        invariant toExport == ExportList(s, paths, after, i)
        invariant aligned + |toExport| == CountWanted(s, paths, after, i)
      {
        toExport, aligned := AlignNext(i, paths, after, toExport, aligned, s);
      }
    }

    /** One row of the first pass: aligned, listed for export, or passed over. */
    method AlignNext(i: nat, paths: Option<set<string>>, after: int, toExport: seq<nat>, aligned: nat, ghost s: State)
      returns (toExport': seq<nat>, aligned': nat)
      requires WellFormed(s) && i < |s.rows| && Aligned(s, paths, after, i, Contents())
      requires toExport == ExportList(s, paths, after, i) && aligned + |toExport| == CountWanted(s, paths, after, i)
      modifies this
      ensures Aligned(s, paths, after, i + 1, Contents())
      ensures toExport' == ExportList(s, paths, after, i + 1) && aligned' + |toExport'| == CountWanted(s, paths, after, i + 1)
    {
      toExport', aligned' := toExport, aligned;
      assert rows[i] == s.rows[i];
      if Wanted(rows[i], paths, after) {
        var found := AlignIfFound(i, paths, after, s);
        if found {
          aligned' := aligned + 1;
        } else {
          toExport' := toExport + [i];
        }
      } else {
        AlignedSkips(s, paths, after, i, i + 1, Contents());
      }
    }

    /** Decide every export on its row's own stamp, first-wins, before any of them is linked. */
    method AppendExports(list: seq<nat>, ghost s: State)
      requires WellFormed(s) && Exporting(s, list) && decisions == s.decisions
      requires forall a | 0 <= a < |list| :: list[a] < |rows| && rows[list[a]] == s.rows[list[a]]
      modifies this`decisions
      ensures Decided(s, list, |list|, decisions)
    {
      for m := 0 to |list|
        invariant Decided(s, list, m, decisions)
      {
        var row := rows[list[m]];
        KeyIsNew(s, list, m);
        AddStep(s.decisions, Keys(s, list), Stamps(s, list), m, decisions);
        if KeyOf(row.identity) !in decisions {
          decisions := decisions[KeyOf(row.identity) := Preserved(row.stamp)];
        }
      }
    }

    /** Link a row to the decision its export stored: an equal stamp takes the link alone. */
    method LinkStored(i: nat, k: DecisionKey)
      requires i < |rows| && k in decisions
      modifies this
      ensures Contents() == Align(old(Contents()), i, k)
    {
      if decisions[k] == Preserved(rows[i].stamp) {
        rows := rows[i := rows[i].(link := Some(k))];
      } else {
        var _ := AlignRow(i, k);
      }
    }

    /** Link every export, after all of them are decided. */
    method LinkExports(list: seq<nat>, ghost s: State)
      requires Exporting(s, list) && |rows| == |s.rows| && Decided(s, list, |list|, decisions)
      requires forall a | 0 <= a < |list| :: rows[list[a]] == s.rows[list[a]]
      modifies this
      ensures decisions == old(decisions) && mutationSeq == old(mutationSeq) && alignedRows == old(alignedRows)
      ensures |rows| == |old(rows)|
      ensures forall a | 0 <= a < |list| :: rows[list[a]] == s.rows[list[a]].(link := Some(KeyOf(s.rows[list[a]].identity)))
      ensures forall q | 0 <= q < |rows| && q !in list :: rows[q] == old(rows)[q]
    {
      for m := 0 to |list|
        invariant decisions == old(decisions) && mutationSeq == old(mutationSeq) && alignedRows == old(alignedRows)
        invariant LinkedSoFar(s, list, m, old(rows), rows)
      {
        var i := list[m];
        var k := KeyOf(rows[i].identity);
        assert k in decisions && decisions[k] == Preserved(rows[i].stamp);
        LinkStep(s, list, m, old(rows), rows);
        LinkStored(i, k);
      }
    }

    /** One chunk: look up and align, then decide the exports, then link them. */
    method PreserveChunk(paths: Option<set<string>>, after: int, end: nat) returns (aligned: nat, exported: nat)
      requires WellFormed(Contents()) && end <= |rows|
      modifies this
      ensures Contents() == PreserveRows(old(Contents()), paths, after, 0, end)
      ensures aligned + exported == CountWanted(old(Contents()), paths, after, end)
    {
      ghost var s := Contents();
      var toExport;
      toExport, aligned := AlignFound(paths, after, end);
      ghost var c := Contents();
      ExportListReady(s, paths, after, end, c);
      AppendExports(toExport, s);
      LinkExports(toExport, s);
      ChunkDone(s, paths, after, end, c, Contents());
      exported := |toExport|;
    }

    /**
    One round of the loop, from behind row `mid - 1`: fetch a chunk and preserve it. `end` is the number of rows
    behind the last one fetched, `mid` again when nothing was left to fetch.
    */
    method PreserveFetched(paths: Option<set<string>>, lastId: int, size: nat, ghost s: State, ghost after: int, ghost mid: nat)
      returns (fetched: nat, aligned: nat, exported: nat, newLast: int, ghost end: nat)
      requires WellFormed(s) && Reached(s, paths, after, mid, lastId, Contents()) && size >= 1
      modifies this
      ensures aligned + exported == fetched <= size && mid <= end && (fetched > 0 <==> mid < end)
      ensures Reached(s, paths, after, end, newLast, Contents())
      ensures CountWanted(s, paths, after, end) == CountWanted(s, paths, after, mid) + fetched
      ensures fetched == 0 ==> newLast == lastId && !WantedFrom(Contents(), paths, lastId, 0)
    {
      var stop;
      fetched, stop := FetchUnlinked(paths, lastId, size);
      if fetched == 0 {
        return 0, 0, 0, lastId, mid;
      }
      ReachStep(s, paths, after, mid, lastId, Contents(), stop);
      aligned, exported := PreserveChunk(paths, lastId, stop);
      newLast, end := rows[stop - 1].id, stop;
    }

    /**
    Link every wanted row after `afterId`, at most `limit` of them, in `id` order and in chunks. `mid` is
    the number of rows behind the last one linked: whatever the chunk size, the cache is where the
    one-by-one rule over those rows leaves it.
    */
    method PreserveUnlinkedRows(paths: Option<set<string>>, afterId: int, limit: Option<int>, chunkSize: nat)
      returns (result: Result, ghost mid: nat)
      requires WellFormed(Contents()) && chunkSize >= 1
      modifies this
      ensures mid <= |old(rows)| && Contents() == PreserveRows(old(Contents()), paths, afterId, 0, mid)
      ensures RunIs(old(Contents()), Contents(), paths, afterId, mid)
      ensures if mid == 0 then result.lastId == afterId else result.lastId == old(rows)[mid - 1].id && afterId < result.lastId
      ensures result.saved == result.aligned + result.exported == |UnlinkedBefore(old(Contents()), paths, afterId, mid)|
      ensures result.remaining <==> WantedFrom(Contents(), paths, result.lastId, 0)
      ensures limit.None? ==> !result.remaining
      ensures limit.Some? ==> result.saved <= (if limit.value < 0 then 0 else limit.value)
      ensures limit.Some? && result.saved < limit.value ==> !result.remaining
    {
      ghost var s := Contents();
      if paths == Some({}) {
        RunInFields(s, paths, afterId, 0);
        CountWantedIs(s, paths, afterId, 0);
        return Result(0, 0, 0, afterId, false), 0;
      }
      var saved, aligned, exported, lastId;
      saved, aligned, exported, lastId, mid := PreserveChunks(paths, afterId, limit, chunkSize);
      var remaining := exists q :: 0 <= q < |rows| && Wanted(rows[q], paths, lastId);
      RunInFields(s, paths, afterId, mid);
      CountWantedIs(s, paths, afterId, mid);
      result := Result(saved, aligned, exported, lastId, remaining);
    }

    /** The loop over chunks: until the limit is used up or nothing is left to fetch. */
    method PreserveChunks(paths: Option<set<string>>, afterId: int, limit: Option<int>, chunkSize: nat)
      returns (saved: nat, aligned: nat, exported: nat, lastId: int, ghost mid: nat)
      requires WellFormed(Contents()) && chunkSize >= 1
      modifies this
      ensures Reached(old(Contents()), paths, afterId, mid, lastId, Contents())
      ensures saved == aligned + exported == CountWanted(old(Contents()), paths, afterId, mid)
      ensures limit.Some? ==> saved <= (if limit.value < 0 then 0 else limit.value)
      ensures limit.None? || saved < limit.value ==> !WantedFrom(Contents(), paths, lastId, 0)
    {
      ghost var s := Contents();
      mid := 0;
      saved, aligned, exported := 0, 0, 0;
      lastId := afterId;
      var budget := limit;
      var done := false;
      while !done && (budget.None? || budget.value > 0)
        invariant Reached(s, paths, afterId, mid, lastId, Contents())
        invariant saved == aligned + exported == CountWanted(s, paths, afterId, mid)
        invariant budget.Some? <==> limit.Some?
        invariant limit.Some? ==> budget.value == limit.value - saved && (saved == 0 || budget.value >= 0)
        invariant done ==> !WantedFrom(Contents(), paths, lastId, 0)
        decreases !done, |s.rows| - mid
      {
        var size := if budget.None? || budget.value > chunkSize then chunkSize else budget.value;
        var fetched, found, added, newLast;
        fetched, found, added, newLast, mid := PreserveFetched(paths, lastId, size, s, afterId, mid);
        if fetched == 0 {
          done := true;
        } else {
          aligned, exported := aligned + found, exported + added;
          saved := saved + fetched;
          lastId := newLast;
          if budget.Some? {
            budget := Some(budget.value - fetched);
          }
        }
      }
    }
  }

  /** The rows of `list` are to be exported: in order, and no decision under their keys yet. */
  ghost predicate Exporting(s: State, list: seq<nat>) {
    && (forall a | 0 <= a < |list| :: list[a] < |s.rows| && KeyOf(s.rows[list[a]].identity) !in s.decisions)
    && (forall a, b | 0 <= a < b < |list| :: list[a] < list[b])
  }

  function LinkedRow(r: Row): Row { r.(link := Some(KeyOf(r.identity))) }

  /** The first `m` rows of `list` are linked to their own keys; every other row is as it `was`. */
  ghost predicate LinkedSoFar(s: State, list: seq<nat>, m: nat, was: seq<Row>, rows: seq<Row>)
    requires Exporting(s, list)
  {
    && |rows| == |was| == |s.rows|
    && (forall a | 0 <= a < |list| :: rows[list[a]] == if a < m then LinkedRow(s.rows[list[a]]) else s.rows[list[a]])
    && (forall q | 0 <= q < |rows| && q !in list :: rows[q] == was[q])
  }

  lemma LinkStep(s: State, list: seq<nat>, m: nat, was: seq<Row>, rows: seq<Row>)
    requires Exporting(s, list) && m < |list| && LinkedSoFar(s, list, m, was, rows)
    ensures LinkedSoFar(s, list, m + 1, was, rows[list[m] := LinkedRow(rows[list[m]])])
  {
    forall a | 0 <= a < |list| && a != m ensures list[a] != list[m] {
      assert if a < m then list[a] < list[m] else list[m] < list[a];
    }
  }

  lemma ExportListReady(s: State, paths: Option<set<string>>, after: int, end: nat, c: State)
    requires WellFormed(s) && end <= |s.rows| && Aligned(s, paths, after, end, c)
    ensures var list := ExportList(s, paths, after, end);
            Exporting(s, list) && forall a | 0 <= a < |list| :: c.rows[list[a]] == s.rows[list[a]]
  {
    var list := ExportList(s, paths, after, end);
    ExportListIs(s, paths, after, end);
    forall a | 0 <= a < |list|
      ensures list[a] < |s.rows| && KeyOf(s.rows[list[a]].identity) !in s.decisions && c.rows[list[a]] == s.rows[list[a]]
    {
      assert list[a] in list;
    }
  }

  lemma ChunkDone(s: State, paths: Option<set<string>>, after: int, end: nat, c: State, t: State)
    requires WellFormed(s) && end <= |s.rows| == |t.rows| && Aligned(s, paths, after, end, c)
    requires Exporting(s, ExportList(s, paths, after, end))
    requires var list := ExportList(s, paths, after, end);
             && Decided(s, list, |list|, t.decisions)
             && (forall a | 0 <= a < |list| :: t.rows[list[a]] == s.rows[list[a]].(link := Some(KeyOf(s.rows[list[a]].identity))))
             && (forall q | 0 <= q < |t.rows| && q !in list :: t.rows[q] == c.rows[q])
    requires t.mutationSeq == c.mutationSeq && t.alignedRows == c.alignedRows
    ensures t == PreserveRows(s, paths, after, 0, end)
  {
    ExportListIs(s, paths, after, end);
    DecidedIsOnlyExports(s, paths, after, end, t);
    ChunkIsARun(s, paths, after, end, c, t);
  }

  function Keys(s: State, list: seq<nat>): (keys: seq<DecisionKey>)
    requires forall a | 0 <= a < |list| :: list[a] < |s.rows|
    ensures |keys| == |list| && forall a | 0 <= a < |list| :: keys[a] == KeyOf(s.rows[list[a]].identity)
  {
    seq(|list|, a requires 0 <= a < |list| => KeyOf(s.rows[list[a]].identity))
  }

  function Stamps(s: State, list: seq<nat>): (stamps: seq<Account>)
    requires forall a | 0 <= a < |list| :: list[a] < |s.rows|
    ensures |stamps| == |list| && forall a | 0 <= a < |list| :: stamps[a] == Preserved(s.rows[list[a]].stamp)
  {
    seq(|list|, a requires 0 <= a < |list| => Preserved(s.rows[list[a]].stamp))
  }

  /** `d` is `base` plus the first `m` keys, each with its own value. */
  ghost predicate Adds(base: map<DecisionKey, Account>, keys: seq<DecisionKey>, vals: seq<Account>, m: nat, d: map<DecisionKey, Account>)
    requires m <= |keys| == |vals|
  {
    && (forall k | k in base :: k in d && d[k] == base[k])
    && (forall k | k in d && k !in base :: exists a :: 0 <= a < m && k == keys[a])
    && forall a | 0 <= a < m :: keys[a] in d && d[keys[a]] == vals[a]
  }

  /** The first `m` exports are decided, each on its own stamp, and nothing else is new. */
  ghost predicate Decided(s: State, list: seq<nat>, m: nat, d: map<DecisionKey, Account>)
    requires m <= |list| && Exporting(s, list)
  {
    Adds(s.decisions, Keys(s, list), Stamps(s, list), m, d)
  }

  lemma KeyIsNew(s: State, list: seq<nat>, m: nat)
    requires WellFormed(s) && Exporting(s, list) && m < |list|
    ensures Keys(s, list)[m] !in Keys(s, list)[..m]
  {
    forall a | 0 <= a < m ensures KeyOf(s.rows[list[m]].identity) != KeyOf(s.rows[list[a]].identity) {
      assert !SameSlot(s.rows[list[a]].identity, s.rows[list[m]].identity);
    }
  }

  lemma AddStep(base: map<DecisionKey, Account>, keys: seq<DecisionKey>, vals: seq<Account>, m: nat, d: map<DecisionKey, Account>)
    requires m < |keys| == |vals| && Adds(base, keys, vals, m, d)
    requires keys[m] !in base && keys[m] !in keys[..m]
    ensures keys[m] !in d && Adds(base, keys, vals, m + 1, d[keys[m] := vals[m]])
  {
    forall a | 0 <= a < m ensures keys[a] != keys[m] {
      assert keys[..m][a] == keys[a];
    }
  }

  lemma DecidedIsOnlyExports(s: State, paths: Option<set<string>>, after: int, end: nat, t: State)
    requires end <= |s.rows| && Exporting(s, ExportList(s, paths, after, end))
    requires var list := ExportList(s, paths, after, end); Decided(s, list, |list|, t.decisions)
    ensures OnlyExports(s, paths, after, 0, end, t)
  {
    var list := ExportList(s, paths, after, end);
    ExportListIs(s, paths, after, end);
    forall k | k in t.decisions && k !in s.decisions
      ensures exists q :: 0 <= q < end && Exports(s, paths, after, q) && k == KeyOf(s.rows[q].identity)
    {
      var a :| 0 <= a < |list| && k == KeyOf(s.rows[list[a]].identity);
      assert list[a] in list;
    }
    forall q | 0 <= q < end && Exports(s, paths, after, q)
      ensures var k := KeyOf(s.rows[q].identity); k in t.decisions && t.decisions[k] == Preserved(s.rows[q].stamp)
    {
      assert q in list;
    }
  }

  /** The loop stands behind row `mid - 1`, whose id the next fetch starts after. */
  ghost predicate Reached(s: State, paths: Option<set<string>>, after: int, mid: nat, lastId: int, t: State) {
    && mid <= |s.rows| && t == PreserveRows(s, paths, after, 0, mid)
    && if mid == 0 then lastId == after else lastId == s.rows[mid - 1].id && after < lastId
  }

  lemma ReachStep(s: State, paths: Option<set<string>>, after: int, mid: nat, lastId: int, t: State, end: nat)
    requires WellFormed(s) && Reached(s, paths, after, mid, lastId, t)
    requires 0 < end <= |s.rows| && Wanted(t.rows[end - 1], paths, lastId)
    ensures mid < end && WellFormed(t)
    ensures var u := PreserveRows(t, paths, lastId, 0, end); Reached(s, paths, after, end, u.rows[end - 1].id, u)
    ensures CountWanted(s, paths, after, end) == CountWanted(s, paths, after, mid) + CountWanted(t, paths, lastId, end)
  {
    RunWellFormed(s, paths, after, 0, mid);
    RunTouchesOnly(s, paths, after, 0, mid);
    RunTouchesOnly(s, paths, after, 0, end);
    ChainedRunsAreOneRun(s, paths, after, mid, lastId, end);
    ChainedCount(s, paths, after, mid, lastId, end);
  }

  lemma {:induction false} ChainedCount(s: State, paths: Option<set<string>>, after: int, mid: nat, lastId: int, hi: nat)
    requires WellFormed(s) && mid <= hi <= |s.rows|
    requires if mid == 0 then lastId == after else lastId == s.rows[mid - 1].id && after < lastId
    ensures CountWanted(s, paths, after, hi)
         == CountWanted(s, paths, after, mid) + CountWanted(PreserveRows(s, paths, after, 0, mid), paths, lastId, hi)
    decreases hi
  {
    RunTouchesOnly(s, paths, after, 0, mid);
    var t := PreserveRows(s, paths, after, 0, mid);
    if mid == hi {
      NoneWanted(t, paths, lastId, mid);
    } else {
      ChainedCount(s, paths, after, mid, lastId, hi - 1);
    }
  }

  lemma {:induction false} NoneWanted(s: State, paths: Option<set<string>>, after: int, n: nat)
    requires n <= |s.rows| && forall q | 0 <= q < n :: !Wanted(s.rows[q], paths, after)
    ensures CountWanted(s, paths, after, n) == 0
  {
    if n > 0 { NoneWanted(s, paths, after, n - 1); }
  }

  /** The fetched rows no decision was found for, in order. */
  function ExportList(s: State, paths: Option<set<string>>, after: int, n: nat): seq<nat>
    requires n <= |s.rows|
  {
    if n == 0 then [] else ExportList(s, paths, after, n - 1) + if Exports(s, paths, after, n - 1) then [n - 1] else []
  }

  lemma {:induction false} ExportListIs(s: State, paths: Option<set<string>>, after: int, n: nat)
    requires n <= |s.rows|
    ensures forall q: nat :: q in ExportList(s, paths, after, n) <==> q < n && Exports(s, paths, after, q)
    ensures forall a, b | 0 <= a < b < |ExportList(s, paths, after, n)| ::
              ExportList(s, paths, after, n)[a] < ExportList(s, paths, after, n)[b]
  {
    if n > 0 {
      ExportListIs(s, paths, after, n - 1);
      var l := ExportList(s, paths, after, n - 1);
      assert forall a | 0 <= a < |l| :: l[a] in l;
    }
  }
}
