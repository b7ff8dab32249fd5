/**
Population-aware account labels: a label is decorated only when it is shared, by plan where the plan
separates the accounts and by key prefix where it does not; and when the whole map is injective.
*/
module AccountLabels {
  import opened Wrappers

  /** A registry row; a missing name, email or plan is the empty string, and the plan is stripped. */
  datatype Row = Row(key: string, name: string, email: string, plan: string)

  const UNATTRIBUTED := "unattributed"
  const VENDOR_WIDE := "*"

  type Fold = string -> string   // lower-casing

  function Prefix(key: string): string { if |key| <= 8 then key else key[..8] }

  /** Manual name, else email, else key prefix. */
  function Base(r: Row): string {
    if r.name != "" then r.name else if r.email != "" then r.email else if Prefix(r.key) != "" then Prefix(r.key) else "-"
  }

  /** The first eight characters, or all of a shorter key. */
  ghost predicate OpensKey(key: string, p: string) { p <= key && (|p| == 8 || (|p| < 8 && p == key)) }

  /** The manual name where there is one, else the email, else the key's opening, and a dash for nothing at all. */
  ghost predicate IsBase(r: Row, b: string) {
    && (r.name != "" ==> b == r.name)
    && (r.name == "" && r.email != "" ==> b == r.email)
    && (r.name == "" && r.email == "" && r.key != "" ==> OpensKey(r.key, b))
    && (r.name == "" && r.email == "" && r.key == "" ==> b == "-")
  }

  lemma BaseIs(r: Row)
    ensures OpensKey(r.key, Prefix(r.key)) && IsBase(r, Base(r))
  {}

  predicate IsReal(r: Row) { r.key != "" && r.key != UNATTRIBUTED && r.key != VENDOR_WIDE }

  function Real(rows: seq<Row>): seq<Row> {
    if rows == [] then [] else Real(rows[..|rows| - 1]) + if IsReal(rows[|rows| - 1]) then [rows[|rows| - 1]] else []
  }

  /** The rows `f` sends to `k`, in order. */
  function Where(rows: seq<Row>, f: Row -> string, k: string): seq<Row> {
    if rows == [] then [] else
      Where(rows[..|rows| - 1], f, k) + if f(rows[|rows| - 1]) == k then [rows[|rows| - 1]] else []
  }

  function BaseKey(lower: Fold): Row -> string { (r: Row) => lower(Base(r)) }
  function PlanKey(lower: Fold): Row -> string { (r: Row) => lower(r.plan) }

  /** The accounts a label collides with, case-insensitively, itself included. */
  function Sharing(rows: seq<Row>, lower: Fold, r: Row): seq<Row> { Where(rows, BaseKey(lower), lower(Base(r))) }

  predicate Shared(rows: seq<Row>, lower: Fold, r: Row) { |Sharing(rows, lower, r)| != 1 }

  function Discriminator(rows: seq<Row>, lower: Fold, r: Row): string {
    if r.plan != "" && |Where(Sharing(rows, lower, r), PlanKey(lower), lower(r.plan))| == 1 then r.plan else Prefix(r.key)
  }

  function Decorated(base: string, d: string): string { base + " (" + d + ")" }

  function LabelOf(rows: seq<Row>, lower: Fold, r: Row): string {
    if Shared(rows, lower, r) then Decorated(Base(r), Discriminator(rows, lower, r)) else Base(r)
  }

  ghost predicate DistinctKeys(rows: seq<Row>) {
    forall i, j | 0 <= i < j < |rows| :: rows[i].key != rows[j].key
  }

  /******* The two grouping passes *******/

  lemma {:induction false} WhereIs(rows: seq<Row>, f: Row -> string, k: string)
    ensures forall r :: r in Where(rows, f, k) <==> r in rows && f(r) == k
    ensures DistinctKeys(rows) ==> DistinctKeys(Where(rows, f, k))
  {
    if rows != [] {
      var front := rows[..|rows| - 1];
      WhereIs(front, f, k);
      assert rows == front + [rows[|rows| - 1]];
      assert forall i | 0 <= i < |Where(front, f, k)| :: Where(front, f, k)[i] in front;
    }
  }

  lemma RealIs(rows: seq<Row>)
    ensures forall r :: r in Real(rows) <==> r in rows && IsReal(r)
    ensures DistinctKeys(rows) ==> DistinctKeys(Real(rows))
  {
    RealHolds(rows);
    if DistinctKeys(rows) { RealIsDistinct(rows); }
  }

  lemma {:induction false} RealHolds(rows: seq<Row>)
    ensures forall r :: r in Real(rows) <==> r in rows && IsReal(r)
  {
    if rows != [] {
      RealHolds(rows[..|rows| - 1]);
      assert rows == rows[..|rows| - 1] + [rows[|rows| - 1]];
    }
  }

  lemma {:induction false} RealIsDistinct(rows: seq<Row>)
    requires DistinctKeys(rows)
    ensures DistinctKeys(Real(rows))
  {
    if rows != [] {
      var front := rows[..|rows| - 1];
      RealIsDistinct(front);
      RealHolds(front);
      assert forall i | 0 <= i < |Real(front)| :: Real(front)[i] in front;
    }
  }

  /** `setdefault(key, []).append(row)` over all rows. */
  method GroupBy(rows: seq<Row>, f: Row -> string) returns (groups: map<string, seq<Row>>)
    ensures forall k :: k in groups <==> Where(rows, f, k) != []
    ensures forall k | k in groups :: groups[k] == Where(rows, f, k)
  {
    groups := map[];
    for i := 0 to |rows|
      invariant forall k :: k in groups <==> Where(rows[..i], f, k) != []
      invariant forall k | k in groups :: groups[k] == Where(rows[..i], f, k)
    {
      assert rows[..i + 1][..i] == rows[..i];
      var k := f(rows[i]);
      groups := groups[k := (if k in groups then groups[k] else []) + [rows[i]]];
    }
    assert rows[..|rows|] == rows;
  }

  /** A shared row's label, from its plan group within its collision group. */
  lemma LabelInGroup(rows: seq<Row>, lower: Fold, base: string, group: seq<Row>, row: Row)
    requires group == Where(rows, BaseKey(lower), base) && row in group && |group| != 1
    ensures var planGroup := Where(group, PlanKey(lower), lower(row.plan));
            && planGroup != []
            && LabelOf(rows, lower, row) == Decorated(Base(row), if row.plan != "" && |planGroup| == 1 then row.plan else Prefix(row.key))
  {
    WhereIs(rows, BaseKey(lower), base);
    WhereIs(group, PlanKey(lower), lower(row.plan));
    assert row in Where(group, PlanKey(lower), lower(row.plan));
  }

  /** One shared row's label: its plan where the plan separates it, its key prefix where it does not. */
  method LabelRow(rows: seq<Row>, lower: Fold, ghost base: string, ghost group: seq<Row>, byPlan: map<string, seq<Row>>, row: Row)
    returns (text: string)
    requires group == Where(rows, BaseKey(lower), base) && row in group && |group| != 1
    requires forall k :: k in byPlan <==> Where(group, PlanKey(lower), k) != []
    requires forall k | k in byPlan :: byPlan[k] == Where(group, PlanKey(lower), k)
    ensures text == LabelOf(rows, lower, row)
  {
    LabelInGroup(rows, lower, base, group, row);
    var planGroup := byPlan[lower(row.plan)];
    var discriminator := if row.plan != "" && |planGroup| == 1 then row.plan else Prefix(row.key);
    text := Decorated(Base(row), discriminator);
  }

  method LabelRows(rows: seq<Row>, lower: Fold, ghost base: string, group: seq<Row>) returns (texts: seq<string>)
    requires group == Where(rows, BaseKey(lower), base) && |group| != 1
    ensures |texts| == |group| && forall q | 0 <= q < |group| :: texts[q] == LabelOf(rows, lower, group[q])
  {
    var byPlan := GroupBy(group, PlanKey(lower));
    texts := [];
    for i := 0 to |group|
      invariant |texts| == i && forall q | 0 <= q < i :: texts[q] == LabelOf(rows, lower, group[q])
    {
      var text := LabelRow(rows, lower, base, group, byPlan, group[i]);
      texts := texts + [text];
    }
  }

  method KeyLabels(group: seq<Row>, texts: seq<string>) returns (labels: map<string, string>)
    requires DistinctKeys(group) && |texts| == |group|
    ensures forall k :: k in labels <==> exists q :: 0 <= q < |group| && group[q].key == k
    ensures forall q | 0 <= q < |group| :: labels[group[q].key] == texts[q]
  {
    labels := map[];
    for i := 0 to |group|
      invariant forall k :: k in labels <==> exists q :: 0 <= q < i && group[q].key == k
      invariant forall q | 0 <= q < i :: group[q].key in labels && labels[group[q].key] == texts[q]
    {
      labels := labels[group[i].key := texts[i]];
    }
  }

  /** The labels of one collision group. */
  method LabelGroup(rows: seq<Row>, lower: Fold, base: string, group: seq<Row>) returns (labels: map<string, string>)
    requires DistinctKeys(rows) && group == Where(rows, BaseKey(lower), base)
    ensures forall k :: k in labels <==> exists q :: 0 <= q < |group| && group[q].key == k
    ensures forall q | 0 <= q < |group| :: labels[group[q].key] == LabelOf(rows, lower, group[q])
  {
    if |group| == 1 {
      LoneLabel(rows, lower, base, group);
      labels := map[group[0].key := Base(group[0])];
    } else {
      WhereIs(rows, BaseKey(lower), base);
      var texts := LabelRows(rows, lower, base, group);
      labels := KeyLabels(group, texts);
    }
  }

  lemma LoneLabel(rows: seq<Row>, lower: Fold, base: string, group: seq<Row>)
    requires group == Where(rows, BaseKey(lower), base) && |group| == 1
    ensures LabelOf(rows, lower, group[0]) == Base(group[0])
  {
    WhereIs(rows, BaseKey(lower), base);
    assert group[0] in group;
  }

  /** `labels` holds the wanted label of each of `done`, and nothing else. */
  ghost predicate Covers(labels: map<string, string>, want: map<Row, string>, done: set<Row>) {
    && (forall k :: k in labels <==> exists r :: r in done && r.key == k)
    && forall r | r in done :: r in want && r.key in labels && labels[r.key] == want[r]
  }

  ghost predicate KeysApart(rows: set<Row>) { forall a, b | a in rows && b in rows && a.key == b.key :: a == b }

  lemma CoversMore(labels: map<string, string>, more: map<string, string>, want: map<Row, string>, done: set<Row>, next: set<Row>)
    requires Covers(labels, want, done) && Covers(more, want, next) && KeysApart(done + next)
    ensures Covers(labels + more, want, done + next)
  {
    var all := labels + more;
    forall k ensures k in all <==> exists r :: r in done + next && r.key == k {
      if k in labels {
        var r :| r in done && r.key == k;
        assert r in done + next;
      }
      if k in more {
        var r :| r in next && r.key == k;
        assert r in done + next;
      }
    }
  }

  /** The labels wanted: each account's own. */
  ghost function Wanted(known: seq<Row>, lower: Fold): map<Row, string> { map r | r in known :: LabelOf(known, lower, r) }

  ghost function OfBase(known: seq<Row>, lower: Fold, base: string): set<Row> { set r | r in known && lower(Base(r)) == base }

  ghost function NotIn(known: seq<Row>, lower: Fold, todo: set<string>): set<Row> { set r | r in known && lower(Base(r)) !in todo }

  lemma GroupIsCovered(known: seq<Row>, lower: Fold, base: string, group: seq<Row>, labels: map<string, string>)
    requires group == Where(known, BaseKey(lower), base)
    requires forall k :: k in labels <==> exists q :: 0 <= q < |group| && group[q].key == k
    requires forall q | 0 <= q < |group| :: labels[group[q].key] == LabelOf(known, lower, group[q])
    ensures Covers(labels, Wanted(known, lower), OfBase(known, lower, base))
  {
    var want, rows := Wanted(known, lower), OfBase(known, lower, base);
    WhereIs(known, BaseKey(lower), base);
    assert forall r :: r in rows <==> r in group;
    forall k ensures k in labels <==> exists r :: r in rows && r.key == k {
      if k in labels {
        var q :| 0 <= q < |group| && group[q].key == k;
        assert group[q] in rows;
      }
    }
  }

  method LabelBase(known: seq<Row>, lower: Fold, base: string, group: seq<Row>) returns (labels: map<string, string>)
    requires DistinctKeys(known) && group == Where(known, BaseKey(lower), base)
    ensures Covers(labels, Wanted(known, lower), OfBase(known, lower, base))
  {
    labels := LabelGroup(known, lower, base, group);
    GroupIsCovered(known, lower, base, group, labels);
  }

  lemma EveryBaseIsGrouped(known: seq<Row>, lower: Fold, byBase: map<string, seq<Row>>)
    requires forall k :: k in byBase <==> Where(known, BaseKey(lower), k) != []
    ensures NotIn(known, lower, byBase.Keys) == {}
  {
    forall r | r in known ensures lower(Base(r)) in byBase {
      WhereIs(known, BaseKey(lower), lower(Base(r)));
      assert r in Where(known, BaseKey(lower), lower(Base(r)));
    }
  }

  lemma OneBaseLess(known: seq<Row>, lower: Fold, todo: set<string>, base: string)
    requires base in todo && DistinctKeys(known)
    ensures NotIn(known, lower, todo - {base}) == NotIn(known, lower, todo) + OfBase(known, lower, base)
    ensures KeysApart(NotIn(known, lower, todo) + OfBase(known, lower, base))
  {}

  method LabelBases(known: seq<Row>, lower: Fold, byBase: map<string, seq<Row>>) returns (labels: map<string, string>)
    requires DistinctKeys(known)
    requires forall k :: k in byBase <==> Where(known, BaseKey(lower), k) != []
    requires forall k | k in byBase :: byBase[k] == Where(known, BaseKey(lower), k)
    ensures Covers(labels, Wanted(known, lower), NotIn(known, lower, {}))
  {
    EveryBaseIsGrouped(known, lower, byBase);
    labels := map[];
    var todo := byBase.Keys;
    while todo != {}
      invariant todo <= byBase.Keys
      invariant Covers(labels, Wanted(known, lower), NotIn(known, lower, todo))
      decreases todo
    {
      var base :| base in todo;
      var group := LabelBase(known, lower, base, byBase[base]);
      OneBaseLess(known, lower, todo, base);
      CoversMore(labels, group, Wanted(known, lower), NotIn(known, lower, todo), OfBase(known, lower, base));
      labels := labels + group;
      todo := todo - {base};
    }
  }

  /** Collision-only display labels for one provider's population. */
  method DisplayLabelMap(rows: seq<Row>, lower: Fold) returns (labels: map<string, string>)
    requires DistinctKeys(rows)
    ensures forall k :: k in labels <==> exists r :: r in rows && IsReal(r) && r.key == k
    ensures forall r | r in rows && IsReal(r) :: r.key in labels && labels[r.key] == LabelOf(Real(rows), lower, r)
    ensures forall k :: k in labels <==> k != "" && k != "unattributed" && k != "*" && exists r :: r in rows && r.key == k
    ensures forall r | r in rows && r.key in labels :: LabelReads(rows, lower, r, labels[r.key])
  {
    RealIs(rows);
    var known := Real(rows);
    var byBase := GroupBy(known, BaseKey(lower));
    labels := LabelBases(known, lower, byBase);
    CoveredIsLabelled(rows, known, lower, labels);
    forall r | r in rows && r.key in labels ensures LabelReads(rows, lower, r, labels[r.key]) {
      LabelIsRead(rows, lower, r);
    }
  }

  ghost predicate IsKnown(q: Row) { q.key != "" && q.key != "unattributed" && q.key != "*" }

  /** Another real account has this base too, case aside. */
  ghost predicate Shares(rows: seq<Row>, lower: Fold, r: Row, base: string, q: Row) {
    q in rows && q != r && IsKnown(q) && exists b :: IsBase(q, b) && lower(b) == lower(base)
  }

  /** The plan is there, and no account that shares the base has it, case aside. */
  ghost predicate PlanStandsOut(rows: seq<Row>, lower: Fold, r: Row, base: string) {
    r.plan != "" && forall q | Shares(rows, lower, r, base, q) :: lower(q.plan) != lower(r.plan)
  }

  /** The base alone where no other real account shares it; otherwise marked, by the plan that stands out or the key's opening. */
  ghost predicate LabelReads(rows: seq<Row>, lower: Fold, r: Row, text: string) {
    exists base :: IsBase(r, base) && ReadsAs(rows, lower, r, base, text)
  }

  ghost predicate ReadsAs(rows: seq<Row>, lower: Fold, r: Row, base: string, text: string) {
    if forall q :: !Shares(rows, lower, r, base, q) then text == base
    else exists d :: text == base + " (" + d + ")" && if PlanStandsOut(rows, lower, r, base) then d == r.plan else OpensKey(r.key, d)
  }

  lemma OneBase(r: Row, b: string)
    requires IsBase(r, b)
    ensures b == Base(r)
  {}

  lemma SharesIff(rows: seq<Row>, lower: Fold, r: Row, q: Row)
    requires forall x :: x in Real(rows) <==> x in rows && IsReal(x)
    ensures Shares(rows, lower, r, Base(r), q) <==> q in Real(rows) && q != r && Sibling(lower, q, r)
  {
    BaseIs(q);
    if Shares(rows, lower, r, Base(r), q) {
      var b :| IsBase(q, b) && lower(b) == lower(Base(r));
      OneBase(q, b);
    }
  }

  lemma LabelIsRead(rows: seq<Row>, lower: Fold, r: Row)
    requires DistinctKeys(rows) && r in rows && IsReal(r)
    ensures LabelReads(rows, lower, r, LabelOf(Real(rows), lower, r))
  {
    RealIs(rows);
    BaseIs(r);
    LabelIsMarked(Real(rows), lower, r);
    forall q ensures Shares(rows, lower, r, Base(r), q) <==> q in Real(rows) && q != r && Sibling(lower, q, r) {
      SharesIff(rows, lower, r, q);
    }
    assert ReadsAs(rows, lower, r, Base(r), LabelOf(Real(rows), lower, r));
  }

  lemma CoveredIsLabelled(rows: seq<Row>, known: seq<Row>, lower: Fold, labels: map<string, string>)
    requires forall r :: r in known <==> r in rows && IsReal(r)
    requires Covers(labels, Wanted(known, lower), NotIn(known, lower, {}))
    ensures forall k :: k in labels <==> exists r :: r in rows && IsReal(r) && r.key == k
    ensures forall r | r in rows && IsReal(r) :: r.key in labels && labels[r.key] == LabelOf(known, lower, r)
  {
    var done, want := NotIn(known, lower, {}), Wanted(known, lower);
    assert forall r :: r in done <==> r in rows && IsReal(r);
    assert forall r | r in done :: labels[r.key] == want[r];
  }

  /******* Injectivity *******/

  ghost predicate Injective(rows: seq<Row>, lower: Fold) {
    forall a, b | a in rows && b in rows && a != b :: LabelOf(rows, lower, a) != LabelOf(rows, lower, b)
  }

  /** Another account's label reads the same but for case. */
  ghost predicate HasSibling(rows: seq<Row>, lower: Fold, r: Row) {
    exists q :: q in rows && q != r && Sibling(lower, q, r)
  }

  predicate Sibling(lower: Fold, q: Row, r: Row) { lower(Base(q)) == lower(Base(r)) }

  /** The account has a plan, and no sibling has the same plan but for case. */
  ghost predicate PlanAlone(rows: seq<Row>, lower: Fold, r: Row) {
    r.plan != "" && forall q | q in rows && q != r && Sibling(lower, q, r) :: lower(q.plan) != lower(r.plan)
  }

  /** The text that tells an account from its siblings. */
  ghost function Mark(rows: seq<Row>, lower: Fold, r: Row): string {
    if PlanAlone(rows, lower, r) then r.plan else Prefix(r.key)
  }

  /** Accounts of one base: the key prefixes coincide, or one's lone plan is the other's key prefix. */
  ghost predicate Tied(rows: seq<Row>, lower: Fold, a: Row, b: Row) {
    && Base(a) == Base(b)
    && if PlanAlone(rows, lower, a) then !PlanAlone(rows, lower, b) && a.plan == Prefix(b.key)
       else if PlanAlone(rows, lower, b) then Prefix(a.key) == b.plan
       else Prefix(a.key) == Prefix(b.key)
  }

  /** An account nobody shares a label with is called `base (plan)` or `base (prefix)` after another one. */
  ghost predicate Mimics(rows: seq<Row>, lower: Fold, a: Row, b: Row) {
    && !HasSibling(rows, lower, a) && HasSibling(rows, lower, b)
    && Base(a) == Base(b) + " (" + Mark(rows, lower, b) + ")"
  }

  /** One base continues the other with an opening parenthesis, and the shorter one's mark makes up for it. */
  ghost predicate Overlaps(rows: seq<Row>, lower: Fold, a: Row, b: Row) {
    && HasSibling(rows, lower, a) && HasSibling(rows, lower, b)
    && exists t :: Extends(Base(a), Mark(rows, lower, a), Base(b), Mark(rows, lower, b), t)
  }

  predicate Extends(base: string, mark: string, base': string, mark': string, t: string) {
    base' == base + " (" + t && mark == t + " (" + mark'
  }

  /** Two decorated texts are one exactly when their parts are, or when one base extends into the other. */
  lemma DecoratedEqualIff(b: string, d: string, b': string, d': string)
    ensures Decorated(b, d) == Decorated(b', d') <==>
              (b == b' && d == d') || (exists t :: Extends(b, d, b', d', t)) || (exists t :: Extends(b', d', b, d, t))
  {
    if exists t :: Extends(b, d, b', d', t) {
      var t :| Extends(b, d, b', d', t);
      assert Decorated(b, d) == b + " (" + t + " (" + d' + ")" == Decorated(b', d');
    }
    if exists t :: Extends(b', d', b, d, t) {
      var t :| Extends(b', d', b, d, t);
      assert Decorated(b', d') == b' + " (" + t + " (" + d + ")" == Decorated(b, d);
    }
    if Decorated(b, d) == Decorated(b', d') {
      if |b| < |b'| {
        ShorterBaseExtends(b, d, b', d');
      } else if |b'| < |b| {
        ShorterBaseExtends(b', d', b, d);
      } else {
        DecoratedParts(b, d);
        DecoratedParts(b', d');
      }
    }
  }

  lemma DecoratedParts(b: string, d: string)
    ensures var s := Decorated(b, d);
            && |s| == |b| + |d| + 3 && s[..|b|] == b && s[|b|] == ' ' && s[|b| + 1] == '('
            && s[|b| + 2..|s| - 1] == d && s[|s| - 1] == ')'
  {}

  lemma ShorterBaseExtends(b: string, d: string, b': string, d': string)
    requires Decorated(b, d) == Decorated(b', d') && |b| < |b'|
    ensures exists t :: Extends(b, d, b', d', t)
  {
    var s := Decorated(b, d);
    DecoratedParts(b, d);
    DecoratedParts(b', d');
    assert |b'| != |b| + 1;
    var t := b'[|b| + 2..];
    assert b' == s[..|b'|] && b' == s[..|b|] + [s[|b|], s[|b| + 1]] + t;
    assert d == s[|b| + 2..|b'|] + [s[|b'|], s[|b'| + 1]] + s[|b'| + 2..|s| - 1];
    assert t == s[|b| + 2..|b'|];
    assert Extends(b, d, b', d', t);
  }

  /** What the two grouping passes test, read off the rows. */
  lemma LabelIsMarked(rows: seq<Row>, lower: Fold, r: Row)
    requires DistinctKeys(rows) && r in rows
    ensures LabelOf(rows, lower, r) == if HasSibling(rows, lower, r) then Decorated(Base(r), Mark(rows, lower, r)) else Base(r)
  {
    var group := Sharing(rows, lower, r);
    WhereIs(rows, BaseKey(lower), lower(Base(r)));
    AloneIff(group, r);
    var plans := Where(group, PlanKey(lower), lower(r.plan));
    WhereIs(group, PlanKey(lower), lower(r.plan));
    AloneIff(plans, r);
    assert forall q :: q in group <==> q in rows && Sibling(lower, q, r);
    assert forall q :: q in plans <==> q in group && lower(q.plan) == lower(r.plan);
  }

  lemma AloneIff(group: seq<Row>, r: Row)
    requires DistinctKeys(group) && r in group
    ensures |group| == 1 <==> forall q | q in group :: q == r
  {
    if |group| != 1 {
      assert group[0] in group && group[1] in group;
    }
  }

  lemma SiblingsHaveSiblings(rows: seq<Row>, lower: Fold, a: Row, b: Row)
    requires a in rows && b in rows && a != b && Sibling(lower, a, b)
    ensures HasSibling(rows, lower, a) && HasSibling(rows, lower, b)
  {}

  /** When two accounts get one label. */
  lemma SameLabelIff(rows: seq<Row>, lower: Fold, a: Row, b: Row)
    requires DistinctKeys(rows) && a in rows && b in rows && a != b
    ensures LabelOf(rows, lower, a) == LabelOf(rows, lower, b) <==>
              || Tied(rows, lower, a, b)
              || Mimics(rows, lower, a, b) || Mimics(rows, lower, b, a)
              || Overlaps(rows, lower, a, b) || Overlaps(rows, lower, b, a)
  {
    LabelIsMarked(rows, lower, a);
    LabelIsMarked(rows, lower, b);
    if Base(a) == Base(b) {
      SiblingsHaveSiblings(rows, lower, a, b);
      TiedIff(rows, lower, a, b);
    }
    DecoratedEqualIff(Base(a), Mark(rows, lower, a), Base(b), Mark(rows, lower, b));
  }

  lemma TiedIff(rows: seq<Row>, lower: Fold, a: Row, b: Row)
    requires a in rows && b in rows && a != b && Base(a) == Base(b)
    ensures Tied(rows, lower, a, b) <==> Mark(rows, lower, a) == Mark(rows, lower, b)
  {
    assert Sibling(lower, a, b) && Sibling(lower, b, a);
    assert PlanAlone(rows, lower, a) ==> lower(b.plan) != lower(a.plan);
  }

  /**
  When the map is injective: exactly when no two accounts of one base are tied by their plans and key
  prefixes, no unshared label is another account's base and mark, and no base continues another into its mark.
  */
  lemma InjectiveIff(rows: seq<Row>, lower: Fold)
    requires DistinctKeys(rows)
    ensures Injective(rows, lower) <==> forall a, b | a in rows && b in rows && a != b ::
              !Tied(rows, lower, a, b) && !Mimics(rows, lower, a, b) && !Overlaps(rows, lower, a, b)
  {
    forall a, b | a in rows && b in rows && a != b
      ensures LabelOf(rows, lower, a) == LabelOf(rows, lower, b) <==>
                || Tied(rows, lower, a, b)
                || Mimics(rows, lower, a, b) || Mimics(rows, lower, b, a)
                || Overlaps(rows, lower, a, b) || Overlaps(rows, lower, b, a)
    {
      SameLabelIff(rows, lower, a, b);
    }
  }

  /** Plan and key prefix open no parenthesis of their own. */
  predicate Plain(r: Row) { '(' !in r.plan && '(' !in Prefix(r.key) }

  ghost predicate PlainDiscriminators(rows: seq<Row>) { forall r | r in rows :: Plain(r) }

  lemma PlainNeverOverlaps(rows: seq<Row>, lower: Fold, a: Row, b: Row)
    requires Plain(a)
    ensures !Overlaps(rows, lower, a, b)
  {
    forall t ensures !Extends(Base(a), Mark(rows, lower, a), Base(b), Mark(rows, lower, b), t) {
      OpensParenthesis(t, Mark(rows, lower, b));
    }
  }

  lemma OpensParenthesis(t: string, rest: string)
    ensures '(' in t + " (" + rest
  {
    assert (t + " (" + rest)[|t| + 1] == '(';
  }

  /** Distinct key prefixes, and neither plan the other's prefix. */
  predicate Separate(a: Row, b: Row) { Prefix(a.key) != Prefix(b.key) && a.plan != Prefix(b.key) && b.plan != Prefix(a.key) }

  /** Lower-casing keeps at least one character for each: a longer text never folds to what its beginning folds to. */
  ghost predicate Grows(lower: Fold) {
    forall s: string, t: string | t != "" :: lower(s + t) != lower(s)
  }

  /** Bases that differ only in case have one length, so neither runs on into the other's mark. */
  lemma SiblingsNeverOverlap(rows: seq<Row>, lower: Fold, a: Row, b: Row)
    requires Grows(lower) && Sibling(lower, a, b)
    ensures !Overlaps(rows, lower, a, b)
  {
    forall t ensures !Extends(Base(a), Mark(rows, lower, a), Base(b), Mark(rows, lower, b), t) {
      assert Base(a) + " (" + t == Base(a) + (" (" + t);
      assert lower(Base(a) + (" (" + t)) != lower(Base(a));
    }
  }

  /** Two accounts of one case-insensitive collision group get different labels. */
  lemma CollisionGroupIsSeparated(rows: seq<Row>, lower: Fold, a: Row, b: Row)
    requires DistinctKeys(rows) && a in rows && b in rows && a != b && lower(Base(a)) == lower(Base(b))
    requires Separate(a, b) && Grows(lower)
    ensures LabelOf(rows, lower, a) != LabelOf(rows, lower, b)
  {
    SameLabelIff(rows, lower, a, b);
    SiblingsNeverOverlap(rows, lower, a, b);
    SiblingsNeverOverlap(rows, lower, b, a);
    SiblingsHaveSiblings(rows, lower, a, b);
  }

  /** No account's own name, email or prefix reads `base (plan)` or `base (prefix)` for another account. */
  ghost predicate NoGeneratedShape(rows: seq<Row>) {
    forall a, b | a in rows && b in rows && a != b ::
      Base(a) != Decorated(Base(b), b.plan) && Base(a) != Decorated(Base(b), Prefix(b.key))
  }

  /** The second base is the first one and goes on with an opening parenthesis. */
  predicate RunsOn(base: string, base': string) { |base| + 2 <= |base'| && base'[..|base| + 2] == base + " (" }

  lemma NoRunOnNeverOverlaps(rows: seq<Row>, lower: Fold, a: Row, b: Row)
    requires !RunsOn(Base(a), Base(b))
    ensures !Overlaps(rows, lower, a, b)
  {
    forall t ensures !Extends(Base(a), Mark(rows, lower, a), Base(b), Mark(rows, lower, b), t) {
      assert (Base(a) + " (" + t)[..|Base(a)| + 2] == Base(a) + " (";
    }
  }

  /** The documented claim, with its side conditions: the whole map is injective. */
  lemma WholeMapIsInjective(rows: seq<Row>, lower: Fold)
    requires DistinctKeys(rows) && NoGeneratedShape(rows)
    requires forall a, b | a in rows && b in rows && RunsOn(Base(a), Base(b)) :: Plain(a)
    requires forall a, b | a in rows && b in rows && a != b && lower(Base(a)) == lower(Base(b)) :: Separate(a, b)
    ensures Injective(rows, lower)
  {
    forall a, b | a in rows && b in rows && a != b
      ensures !Tied(rows, lower, a, b) && !Mimics(rows, lower, a, b) && !Overlaps(rows, lower, a, b)
    {
      if Base(a) == Base(b) { SeparateIsNotTied(rows, lower, a, b); }
      ShapelessIsNoMimic(rows, lower, a, b);
      if RunsOn(Base(a), Base(b)) { PlainNeverOverlaps(rows, lower, a, b); } else { NoRunOnNeverOverlaps(rows, lower, a, b); }
    }
    InjectiveIff(rows, lower);
  }

  lemma SeparateIsNotTied(rows: seq<Row>, lower: Fold, a: Row, b: Row)
    requires Separate(a, b)
    ensures !Tied(rows, lower, a, b)
  {}

  lemma ShapelessIsNoMimic(rows: seq<Row>, lower: Fold, a: Row, b: Row)
    requires Base(a) != Decorated(Base(b), b.plan) && Base(a) != Decorated(Base(b), Prefix(b.key))
    ensures !Mimics(rows, lower, a, b)
  {}

  lemma WhereTwo(a: Row, b: Row, f: Row -> string, k: string)
    ensures Where([a, b], f, k) == (if f(a) == k then [a] else []) + (if f(b) == k then [b] else [])
  {
    WhereOne(a, f, k);
    assert [a, b][..1] == [a];
  }

  lemma WhereOne(a: Row, f: Row -> string, k: string)
    ensures Where([a], f, k) == if f(a) == k then [a] else []
  {
    assert [a][..0] == [];
  }

  lemma WhereThree(a: Row, b: Row, c: Row, f: Row -> string, k: string)
    ensures Where([a, b, c], f, k) == Where([a, b], f, k) + if f(c) == k then [c] else []
  {
    assert [a, b, c][..2] == [a, b];
  }

  /**
  The whole map is not injective in general: with two accounts on one base and two plans, a third account
  whose own name reads like the first one's decorated label gets that very label.
  */
  lemma DocumentedClaimFails(lower: Fold, a: Row, b: Row, c: Row)
    requires a.name != "" && b.name == a.name && c.name == Decorated(a.name, a.plan)
    requires a.plan != "" && lower(a.plan) != lower(b.plan) && lower(c.name) != lower(a.name)
    ensures LabelOf([a, b, c], lower, a) == LabelOf([a, b, c], lower, c) == c.name
  {
    var rows := [a, b, c];
    var f, g := BaseKey(lower), PlanKey(lower);
    assert |c.name| > 0;
    assert f(a) == lower(Base(a));
    assert f(b) == lower(Base(b));
    assert f(c) == lower(Base(c));
    WhereTwo(a, b, f, f(a));
    WhereTwo(a, b, f, f(c));
    WhereThree(a, b, c, f, f(a));
    WhereThree(a, b, c, f, f(c));
    assert Sharing(rows, lower, a) == [a, b] && Sharing(rows, lower, c) == [c];
    WhereTwo(a, b, g, g(a));
  }

  /** Such a population exists, with distinct keys, distinct prefixes and plain discriminators. */
  lemma DocumentedClaimFailsOn(lower: Fold)
    requires lower("x") == "x" && lower("x (pro)") == "x (pro)" && lower("pro") == "pro" && lower("team") == "team"
    ensures exists a: Row, b: Row, c: Row ::
              && IsReal(a) && IsReal(b) && IsReal(c)
              && DistinctKeys([a, b, c]) && PlainDiscriminators([a, b, c])
              && LabelOf([a, b, c], lower, a) == LabelOf([a, b, c], lower, c)
  {
    var a, b, c := Row("a", "x", "", "pro"), Row("b", "x", "", "team"), Row("c", "x (pro)", "", "team");
    assert Decorated("x", "pro") == "x (pro)";
    assert |"x"| != |"x (pro)"| && |"pro"| != |"team"|;
    DocumentedClaimFails(lower, a, b, c);
    assert "a"[0] != "b"[0] && "a"[0] != "c"[0] && "b"[0] != "c"[0];
    ThreeRows(a, b, c);
  }

  lemma ThreeRows(a: Row, b: Row, c: Row)
    requires a.key != b.key && a.key != c.key && b.key != c.key
    requires forall r | r in {a, b, c} :: '(' !in r.plan && '(' !in Prefix(r.key)
    ensures DistinctKeys([a, b, c]) && PlainDiscriminators([a, b, c])
  {}
}
