/**
A preservation run that dies after journaling some of its exports, end to end: what the next replay makes of
the lines that survived, and that running again ends where an uninterrupted run would have.
*/
module AttributionRecovery {
  import opened Wrappers
  import R = AttributionReplay
  import P = AttributionPreserve

  /** The key a decision is journaled under. */
  type Naming = P.DecisionKey -> R.Key

  /** Different decision keys have different names. */
  ghost predicate Injective(name: Naming) { forall k, k' | name(k) == name(k') :: k == k' }

  /** `d` is what the lookups read from the table. */
  ghost predicate Reads(d: map<P.DecisionKey, P.Account>, table: map<R.Key, R.Stored>, name: Naming) {
    forall k :: (k in d <==> name(k) in table) && (k in d ==> d[k] == table[name(k)].account)
  }

  /** Key `k` with account `a` is the export of row `q`: its own identity, on its own stamp. */
  ghost predicate ExportOf(s: P.State, paths: Option<set<string>>, after: int, name: Naming, q: nat, k: R.Key, a: R.Account) {
    q < |s.rows| && P.Exports(s, paths, after, q) && k == name(P.KeyOf(s.rows[q].identity)) && a == P.Preserved(s.rows[q].stamp)
  }

  ghost predicate IsExport(s: P.State, paths: Option<set<string>>, after: int, hi: nat, name: Naming, k: R.Key, a: R.Account) {
    exists q :: 0 <= q < hi && ExportOf(s, paths, after, name, q, k, a)
  }

  /** Every decision line of `more` carries exports of rows before `hi`; its other lines are anything. */
  ghost predicate ExportLines(s: P.State, paths: Option<set<string>>, after: int, hi: nat, name: Naming, more: seq<R.Line>) {
    forall p, k | 0 <= p < |more| && more[p].Decision? && k in more[p].items :: IsExport(s, paths, after, hi, name, k, more[p].account)
  }

  /** A key decided behind the old end of the journal was decided by one of the lines behind it. */
  lemma NewDecisionHasLine(j: seq<R.Line>, more: seq<R.Line>, k: R.Key)
    requires k in R.Truth(j + more, |j + more|).decisions && k !in R.Truth(j, |j|).decisions
    ensures exists p :: 0 <= p < |more| && more[p].Decision? && k in more[p].items
                        && more[p].account == R.Truth(j + more, |j + more|).decisions[k].account
  {
    var all := j + more;
    R.TruthIsStable(j, more, |j|);
    R.TruthIsFirstWins(all, |all|, k);
    R.TruthIsFirstWins(all, |j|, k);
    var p := R.Truth(all, |all|).decisions[k].pos;
    assert p >= |j| && all[p] == more[p - |j|];
  }

  lemma OldDecisionStays(j: seq<R.Line>, more: seq<R.Line>, k: R.Key)
    requires k in R.Truth(j, |j|).decisions
    ensures k in R.Truth(j + more, |j + more|).decisions
    ensures R.Truth(j + more, |j + more|).decisions[k] == R.Truth(j, |j|).decisions[k]
  {
    R.TruthIsStable(j, more, |j|);
    R.TruthGrows(j + more, |j|, |j + more|);
  }

  /** Replaying surviving export lines gives the decisions before the run and some of its exports, nothing else. */
  lemma SurvivorsArePartlyExported(j: seq<R.Line>, more: seq<R.Line>, s: P.State, paths: Option<set<string>>, after: int, hi: nat,
                                   name: Naming, d: map<P.DecisionKey, P.Account>)
    requires hi <= |s.rows| && Injective(name) && ExportLines(s, paths, after, hi, name, more)
    requires Reads(s.decisions, R.Truth(j, |j|).decisions, name) && Reads(d, R.Truth(j + more, |j + more|).decisions, name)
    ensures P.PartlyExported(s, paths, after, hi, d)
  {
    forall k | k in s.decisions ensures k in d && d[k] == s.decisions[k] {
      OldDecisionStays(j, more, name(k));
    }
    forall k | k in d && k !in s.decisions
      ensures exists q :: 0 <= q < hi && P.Exports(s, paths, after, q) && k == P.KeyOf(s.rows[q].identity) && d[k] == P.Preserved(s.rows[q].stamp)
    {
      NewDecisionHasLine(j, more, name(k));
      var p :| 0 <= p < |more| && more[p].Decision? && name(k) in more[p].items
               && more[p].account == R.Truth(j + more, |j + more|).decisions[name(k)].account;
      assert IsExport(s, paths, after, hi, name, name(k), more[p].account);
      var q :| 0 <= q < hi && ExportOf(s, paths, after, name, q, name(k), more[p].account);
    }
  }

  /** There is such a reading: finitely many keys name what the table holds. */
  lemma TableIsReadable(j: seq<R.Line>, more: seq<R.Line>, s: P.State, paths: Option<set<string>>, after: int, hi: nat,
                        name: Naming) returns (d: map<P.DecisionKey, P.Account>)
    requires hi <= |s.rows| && Injective(name) && ExportLines(s, paths, after, hi, name, more)
    requires Reads(s.decisions, R.Truth(j, |j|).decisions, name)
    ensures Reads(d, R.Truth(j + more, |j + more|).decisions, name)
  {
    var table := R.Truth(j + more, |j + more|).decisions;
    var keys := s.decisions.Keys + set q | 0 <= q < hi :: P.KeyOf(s.rows[q].identity);
    d := map k | k in keys && name(k) in table :: table[name(k)].account;
    forall k | name(k) in table ensures k in keys {
      if k !in s.decisions {
        NewDecisionHasLine(j, more, name(k));
        var p :| 0 <= p < |more| && more[p].Decision? && name(k) in more[p].items && more[p].account == table[name(k)].account;
        assert IsExport(s, paths, after, hi, name, name(k), more[p].account);
        var q :| 0 <= q < hi && ExportOf(s, paths, after, name, q, name(k), more[p].account);
      }
    }
  }

  /** The lines of an append of exports, and any prefix of them, behind others of the kind. */
  lemma AppendedLinesExport(s: P.State, paths: Option<set<string>>, after: int, hi: nat, name: Naming,
                            earlier: seq<R.Line>, batches: seq<R.Batch>, written: nat)
    requires written <= |batches| && ExportLines(s, paths, after, hi, name, earlier)
    requires forall i, k | 0 <= i < |batches| && k in batches[i].items :: IsExport(s, paths, after, hi, name, k, batches[i].account)
    ensures ExportLines(s, paths, after, hi, name, earlier + R.OwnLines(batches)[..written])
  {}

  /**
  The run appended its exports, died in the last append, and the process came back: the replay of what the
  journal kept leaves decisions `d`, and from them the same run ends in the rows, decisions and counters it
  would have reached uninterrupted. `earlier` are the lines journaled since the run read its decisions, other
  writers' observations and the appends of earlier chunks; `written` lines of the last append survived.
  */
  method ReplayAfterCrash(store: R.AttributionStore, ghost j: seq<R.Line>, ghost earlier: seq<R.Line>, batches: seq<R.Batch>,
                          written: nat, authoritative: bool, ghost s: P.State, ghost paths: Option<set<string>>,
                          ghost after: int, ghost hi: nat, ghost name: Naming)
    returns (ghost d: map<P.DecisionKey, P.Account>)
    requires store.Valid() && store.open && store.journal == j + earlier && written <= |batches| && store.savedExtent <= |j|
    requires P.WellFormed(s) && hi <= |s.rows| && Injective(name) && Reads(s.decisions, R.Truth(j, |j|).decisions, name)
    requires ExportLines(s, paths, after, hi, name, earlier)
    requires forall i, k | 0 <= i < |batches| && k in batches[i].items :: IsExport(s, paths, after, hi, name, k, batches[i].account)
    modifies store
    ensures store.Valid() && store.journal == j + earlier + R.OwnLines(batches)[..written]
    ensures Reads(d, store.tables.decisions, name)
    ensures P.PreserveRows(s.(decisions := d), paths, after, 0, hi) == P.PreserveRows(s, paths, after, 0, hi)
  {
    store.AppendInterrupted(batches, written);
    ghost var more := earlier + R.OwnLines(batches)[..written];
    AppendedLinesExport(s, paths, after, hi, name, earlier, batches, written);
    assert store.journal == j + more;
    store.Rehydrate(authoritative, if store.journal == [] then None else Some(|store.journal|));
    assert store.tables.decisions == R.Truth(j + more, |j + more|).decisions;
    d := TableIsReadable(j, more, s, paths, after, hi, name);
    SurvivorsArePartlyExported(j, more, s, paths, after, hi, name, d);
    P.RerunAfterCrash(s, paths, after, hi, d);
  }
}
