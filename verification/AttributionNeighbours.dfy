/**
The timeline neighbours of a cost record: the two early-stopping seeks around it, proved equal to a scan
of the whole timeline, and what an agreement decided from them says about every observation.

Instants are integer microseconds; an observation covers `[captured, captured + precision)`.
*/
module AttributionNeighbours {
  import opened Wrappers
  import opened AttributionReplay

  const MAX_PRECISION_US := 1_000_000

  /** The record's timestamp interval. */
  datatype Interval = Interval(lo: int, hi: int)

  /** An instant's key: its start and its precision. */
  type InstantKey = (int, nat)

  datatype Instant = Instant(lo: int, precision: nat, accounts: set<Account>) {
    function Hi(): int { lo + precision }
  }
  datatype Neighbours = Neighbours(before: Option<Instant>, overlapping: seq<Instant>, after: Option<Instant>)
  datatype Group = Group(accounts: set<Account>, evidence: seq<nat>)
  datatype Relation = Before | After | Overlapping

  function KeyOf(r: Row): InstantKey { (r.captured, r.precision) }
  function End(k: InstantKey): int { k.0 + k.1 }

  function Relate(k: InstantKey, rec: Interval): Relation {
    if End(k) <= rec.lo then Before else if k.0 >= rec.hi then After else Overlapping
  }

  /** The order of Python tuples. */
  predicate Less(a: (int, int), b: (int, int)) { a.0 < b.0 || (a.0 == b.0 && a.1 < b.1) }
  predicate KeyLess(a: InstantKey, b: InstantKey) { a.0 < b.0 || (a.0 == b.0 && a.1 < b.1) }

  ghost predicate ValidTimeline(timeline: set<Row>) {
    forall r | r in timeline :: 1 <= r.precision <= MAX_PRECISION_US
  }

  /******* The scan of the whole timeline, as a specification *******/

  ghost function AccountsAt(timeline: set<Row>, k: InstantKey): set<Account> {
    set r | r in timeline && KeyOf(r) == k :: r.account
  }

  ghost function EvidenceAt(timeline: set<Row>, k: InstantKey): set<nat> {
    set r | r in timeline && KeyOf(r) == k :: r.pos
  }

  ghost predicate Present(timeline: set<Row>, k: InstantKey) { exists r :: r in timeline && KeyOf(r) == k }

  ghost predicate Complete(timeline: set<Row>, i: Instant) {
    Present(timeline, (i.lo, i.precision)) && i.accounts == AccountsAt(timeline, (i.lo, i.precision))
  }

  /** The latest instant that ends at or before the record: greatest by end, then start. */
  ghost predicate IsBefore(timeline: set<Row>, rec: Interval, o: Option<Instant>) {
    match o
    case None => forall r | r in timeline :: Relate(KeyOf(r), rec) != Before
    case Some(i) =>
      && Complete(timeline, i) && i.Hi() <= rec.lo
      && forall r | r in timeline && Relate(KeyOf(r), rec) == Before ::
           !Less((i.Hi(), i.lo), (End(KeyOf(r)), r.captured))
  }

  /** The earliest instant that starts at or after the record's end: least by start, then precision. */
  ghost predicate IsAfter(timeline: set<Row>, rec: Interval, o: Option<Instant>) {
    match o
    case None => forall r | r in timeline :: Relate(KeyOf(r), rec) != After
    case Some(i) =>
      && Complete(timeline, i) && i.lo >= rec.hi
      && forall r | r in timeline && Relate(KeyOf(r), rec) == After :: !KeyLess(KeyOf(r), (i.lo, i.precision))
  }

  ghost predicate StrictlySorted(s: seq<Instant>) {
    forall i, j | 0 <= i < j < |s| :: KeyLess((s[i].lo, s[i].precision), (s[j].lo, s[j].precision))
  }

  ghost predicate Lists(s: seq<Instant>, k: InstantKey) {
    exists i :: 0 <= i < |s| && (s[i].lo, s[i].precision) == k
  }

  /** Every overlapping instant once, in key order, each with its complete account set. */
  ghost predicate IsOverlapping(timeline: set<Row>, rec: Interval, s: seq<Instant>) {
    && StrictlySorted(s)
    && (forall i | 0 <= i < |s| :: Complete(timeline, s[i]) && Relate((s[i].lo, s[i].precision), rec) == Overlapping)
    && forall r | r in timeline && Relate(KeyOf(r), rec) == Overlapping :: Lists(s, KeyOf(r))
  }

  ghost predicate IsNeighbours(timeline: set<Row>, rec: Interval, n: Neighbours) {
    IsBefore(timeline, rec, n.before) && IsOverlapping(timeline, rec, n.overlapping) && IsAfter(timeline, rec, n.after)
  }

  lemma {:induction false} SortedAreEqual(timeline: set<Row>, rec: Interval, s: seq<Instant>, t: seq<Instant>, n: nat)
    requires IsOverlapping(timeline, rec, s) && IsOverlapping(timeline, rec, t)
    requires n <= |s| && n <= |t|
    ensures s[..n] == t[..n]
  {
    if n > 0 {
      SortedAreEqual(timeline, rec, s, t, n - 1);
      var a, b := s[n - 1], t[n - 1];
      ListedAt(timeline, rec, s, t, n - 1);
      ListedAt(timeline, rec, t, s, n - 1);
      assert s[..n] == s[..n - 1] + [a] && t[..n] == t[..n - 1] + [b];
    }
  }

  lemma ListedAt(timeline: set<Row>, rec: Interval, s: seq<Instant>, t: seq<Instant>, n: nat)
    requires IsOverlapping(timeline, rec, s) && IsOverlapping(timeline, rec, t)
    requires n < |s| && n <= |t| && s[..n] == t[..n]
    ensures n < |t| && !KeyLess((s[n].lo, s[n].precision), (t[n].lo, t[n].precision))
  {
    assert Present(timeline, (s[n].lo, s[n].precision));
    assert Lists(t, (s[n].lo, s[n].precision));
    assert forall q | 0 <= q < n :: s[..n][q] == t[..n][q];
    assert forall q | 0 <= q < n :: KeyLess((t[q].lo, t[q].precision), (s[n].lo, s[n].precision));
  }

  /** The specification leaves no choice: there is one answer per timeline and record. */
  lemma NeighboursAreUnique(timeline: set<Row>, rec: Interval, a: Neighbours, b: Neighbours)
    requires rec.lo < rec.hi
    requires IsNeighbours(timeline, rec, a) && IsNeighbours(timeline, rec, b)
    ensures a == b
  {
    var n := if |a.overlapping| < |b.overlapping| then |a.overlapping| else |b.overlapping|;
    SortedAreEqual(timeline, rec, a.overlapping, b.overlapping, n);
    if n < |a.overlapping| { ListedAt(timeline, rec, a.overlapping, b.overlapping, n); }
    if n < |b.overlapping| { ListedAt(timeline, rec, b.overlapping, a.overlapping, n); }
    assert a.overlapping[..n] == a.overlapping && b.overlapping[..n] == b.overlapping;
    if a.before.Some? && b.before.Some? {
      assert Present(timeline, (a.before.value.lo, a.before.value.precision));
      assert Present(timeline, (b.before.value.lo, b.before.value.precision));
    }
    if a.after.Some? && b.after.Some? {
      assert Present(timeline, (a.after.value.lo, a.after.value.precision));
      assert Present(timeline, (b.after.value.lo, b.after.value.precision));
    }
  }

  /******* The seeks *******/

  /** What the two ordered queries return: every row of their side, by capture instant. */
  ghost predicate Rows(s: seq<Row>, side: set<Row>) {
    forall r :: r in s <==> r in side
  }

  /** `groups` holds exactly the rows of `seen`. */
  ghost predicate Grouped(groups: map<InstantKey, Group>, seen: set<Row>) {
    && (forall k :: k in groups <==> Present(seen, k))
    && (forall k | k in groups :: groups[k].accounts == AccountsAt(seen, k))
    && (forall k | k in groups :: (set p | p in groups[k].evidence) == EvidenceAt(seen, k))
  }

  function Add(groups: map<InstantKey, Group>, r: Row): map<InstantKey, Group> {
    var g := if KeyOf(r) in groups then groups[KeyOf(r)] else Group({}, []);
    groups[KeyOf(r) := Group(g.accounts + {r.account}, g.evidence + [r.pos])]
  }

  lemma AddKeepsGrouped(groups: map<InstantKey, Group>, seen: set<Row>, r: Row)
    requires Grouped(groups, seen)
    ensures Grouped(Add(groups, r), seen + {r})
  {
    var g, s := Add(groups, r), seen + {r};
    forall k
      ensures k in g <==> Present(s, k)
      ensures k in g ==> g[k].accounts == AccountsAt(s, k) && (set p | p in g[k].evidence) == EvidenceAt(s, k)
    {
      assert r in s;
      if Present(seen, k) {
        ghost var q :| q in seen && KeyOf(q) == k;
        assert q in s;
      }
      if k == KeyOf(r) {
        assert AccountsAt(s, k) == AccountsAt(seen, k) + {r.account};
        assert EvidenceAt(s, k) == EvidenceAt(seen, k) + {r.pos};
        if k !in groups {
          assert AccountsAt(seen, k) == {} && EvidenceAt(seen, k) == {} by {
            forall q | q in seen ensures KeyOf(q) != k {}
          }
        }
        assert (set p | p in g[k].evidence) == EvidenceAt(s, k);
      } else {
        assert AccountsAt(s, k) == AccountsAt(seen, k);
        assert EvidenceAt(s, k) == EvidenceAt(seen, k);
      }
    }
  }

  /** The latest instant entirely before the record, among the rows of `seen`. */
  ghost predicate BestOf(seen: set<Row>, rec: Interval, best: Option<InstantKey>) {
    match best
    case None => forall r | r in seen :: Relate(KeyOf(r), rec) != Before
    case Some(k) => Present(seen, k) && End(k) <= rec.lo
                    && forall r | r in seen && Relate(KeyOf(r), rec) == Before :: !Less((End(k), k.0), (End(KeyOf(r)), r.captured))
  }

  lemma BestStep(seen: set<Row>, rec: Interval, prior: Option<InstantKey>, best: Option<InstantKey>, row: Row)
    requires BestOf(seen, rec, prior)
    requires best == if End(KeyOf(row)) <= rec.lo
                        && (prior.None? || Less((End(prior.value), prior.value.0), (End(KeyOf(row)), row.captured)))
                     then Some(KeyOf(row)) else prior
    ensures BestOf(seen + {row}, rec, best)
  {
    assert row in seen + {row};
    if best == prior && prior.Some? {
      var q :| q in seen && KeyOf(q) == prior.value;
      assert q in seen + {row};
    }
  }

  /** The scan before the record, newest first; it stops once no earlier instant can matter. */
  method SeekBefore(desc: seq<Row>, rec: Interval, ghost side: set<Row>)
    returns (groups: map<InstantKey, Group>, best: Option<InstantKey>, ghost seen: set<Row>)
    requires Rows(desc, side) && ValidTimeline(side)
    requires forall i, j | 0 <= i < j < |desc| :: desc[i].captured >= desc[j].captured
    ensures seen <= side && Grouped(groups, seen) && BestOf(seen, rec, best)
    ensures forall r | r in side && r !in seen :: best.Some? && End(KeyOf(r)) < End(best.value)
  {
    groups, best, seen := map[], None, {};
    var i := 0;
    while i < |desc|
      invariant 0 <= i <= |desc| && seen <= side
      invariant forall q | 0 <= q < i :: desc[q] in seen
      invariant Grouped(groups, seen) && BestOf(seen, rec, best)
    {
      var row := desc[i];
      if best.Some? && row.captured + MAX_PRECISION_US < End(best.value) {
        return;
      }
      AddKeepsGrouped(groups, seen, row);
      groups := Add(groups, row);
      var hi := row.captured + row.precision;
      ghost var prior := best;
      if hi <= rec.lo && (best.None? || Less((End(best.value), best.value.0), (hi, row.captured))) {
        best := Some(KeyOf(row));
      }
      BestStep(seen, rec, prior, best, row);
      seen := seen + {row};
      i := i + 1;
    }
  }

  ghost predicate FirstOf(seen: set<Row>, rec: Interval, after: Option<InstantKey>) {
    match after
    case None => forall r | r in seen :: r.captured < rec.hi
    case Some(k) => Present(seen, k) && k.0 >= rec.hi
                    && forall r | r in seen && r.captured >= rec.hi :: !KeyLess(KeyOf(r), k)
  }

  lemma FirstStep(seen: set<Row>, rec: Interval, prior: Option<InstantKey>, after: Option<InstantKey>, row: Row)
    requires FirstOf(seen, rec, prior)
    requires after == if row.captured >= rec.hi && (prior.None? || KeyLess(KeyOf(row), prior.value))
                      then Some(KeyOf(row)) else prior
    ensures FirstOf(seen + {row}, rec, after)
  {
    assert row in seen + {row};
    if after == prior && prior.Some? {
      var q :| q in seen && KeyOf(q) == prior.value;
      assert q in seen + {row};
    }
  }

  /** The scan from the record on, oldest first; it stops past the earliest instant after the record. */
  method SeekAfter(asc: seq<Row>, rec: Interval, groups0: map<InstantKey, Group>, ghost seen0: set<Row>, ghost side: set<Row>)
    returns (groups: map<InstantKey, Group>, after: Option<InstantKey>, ghost seen: set<Row>)
    requires Rows(asc, side) && Grouped(groups0, seen0)
    requires forall i, j | 0 <= i < j < |asc| :: asc[i].captured <= asc[j].captured
    ensures seen <= side && Grouped(groups, seen0 + seen) && FirstOf(seen, rec, after)
    ensures forall r | r in side && r !in seen :: after.Some? && after.value.0 < r.captured
  {
    groups, after, seen := groups0, None, {};
    assert seen0 + {} == seen0;
    var i := 0;
    while i < |asc|
      invariant 0 <= i <= |asc| && seen <= side
      invariant forall q | 0 <= q < i :: asc[q] in seen
      invariant Grouped(groups, seen0 + seen) && FirstOf(seen, rec, after)
    {
      var row := asc[i];
      if after.Some? && row.captured > after.value.0 {
        return;
      }
      AddKeepsGrouped(groups, seen0 + seen, row);
      groups := Add(groups, row);
      ghost var prior := after;
      if row.captured >= rec.hi && (after.None? || KeyLess(KeyOf(row), after.value)) {
        after := Some(KeyOf(row));
      }
      FirstStep(seen, rec, prior, after, row);
      assert seen0 + (seen + {row}) == seen0 + seen + {row};
      seen := seen + {row};
      i := i + 1;
    }
  }

  ghost predicate KeysSorted(s: seq<InstantKey>) {
    forall i, j | 0 <= i < j < |s| :: KeyLess(s[i], s[j])
  }

  function InsertKey(s: seq<InstantKey>, k: InstantKey): (t: seq<InstantKey>)
    requires KeysSorted(s) && k !in s
    ensures KeysSorted(t) && forall x :: x in t <==> x in s || x == k
  {
    if s == [] || KeyLess(k, s[0]) then
      assert forall x :: x in [k] + s <==> x in s || x == k;
      [k] + s
    else
      assert forall x :: x in s <==> x == s[0] || x in s[1..];
      var t := InsertKey(s[1..], k);
      assert forall x :: x in [s[0]] + t <==> x == s[0] || x in t;
      assert forall i | 0 <= i < |t| :: t[i] in s[1..] || t[i] == k;
      assert forall i | 0 <= i < |t| :: KeyLess(s[0], t[i]);
      [s[0]] + t
  }

  /** `sorted(groups)`. */
  method SortedKeys(keys: set<InstantKey>) returns (s: seq<InstantKey>)
    ensures KeysSorted(s) && forall k :: k in s <==> k in keys
  {
    s := [];
    var rest := keys;
    while rest != {}
      invariant rest <= keys && KeysSorted(s)
      invariant forall k :: k in s <==> k in keys && k !in rest
      decreases rest
    {
      var k :| k in rest;
      s := InsertKey(s, k);
      rest := rest - {k};
    }
  }

  function InstantOf(groups: map<InstantKey, Group>, k: InstantKey): Instant
    requires k in groups
  {
    Instant(k.0, k.1, groups[k].accounts)
  }

  /** The overlapping instants of the sorted keys, in key order. */
  method Overlaps(groups: map<InstantKey, Group>, keys: seq<InstantKey>, rec: Interval) returns (overlapping: seq<Instant>)
    requires KeysSorted(keys) && forall k :: k in keys <==> k in groups
    ensures StrictlySorted(overlapping)
    ensures forall q | 0 <= q < |overlapping| ::
          var k := (overlapping[q].lo, overlapping[q].precision);
          k in groups && overlapping[q] == InstantOf(groups, k) && Relate(k, rec) == Overlapping
    ensures forall q | 0 <= q < |keys| && Relate(keys[q], rec) == Overlapping :: Lists(overlapping, keys[q])
  {
    overlapping := [];
    for i := 0 to |keys|
      invariant forall q | 0 <= q < |overlapping| ::
          var k := (overlapping[q].lo, overlapping[q].precision);
          k in groups && overlapping[q] == InstantOf(groups, k) && Relate(k, rec) == Overlapping && k in keys[..i]
      invariant StrictlySorted(overlapping)
      invariant forall q | 0 <= q < i && Relate(keys[q], rec) == Overlapping :: Lists(overlapping, keys[q])
    {
      assert keys[..i + 1] == keys[..i] + [keys[i]];
      if Relate(keys[i], rec) == Overlapping {
        ghost var was := overlapping;
        overlapping := overlapping + [InstantOf(groups, keys[i])];
        forall q | 0 <= q <= i && Relate(keys[q], rec) == Overlapping
          ensures Lists(overlapping, keys[q])
        {
          if q < i {
            var m :| 0 <= m < |was| && (was[m].lo, was[m].precision) == keys[q];
            assert overlapping[m] == was[m];
          } else {
            assert overlapping[|was|] == InstantOf(groups, keys[i]);
          }
        }
      }
    }
  }

  /**
  `before`, every overlapping instant and `after` of one record by the two seeks, and the evidence of
  every instant named: exactly what scanning the whole timeline gives.
  */
  method FindNeighbours(desc: seq<Row>, asc: seq<Row>, rec: Interval, ghost timeline: set<Row>)
    returns (n: Neighbours, groups: map<InstantKey, Group>)
    requires ValidTimeline(timeline) && rec.lo < rec.hi
    requires Rows(desc, set r | r in timeline && r.captured < rec.lo)
    requires Rows(asc, set r | r in timeline && rec.lo <= r.captured)
    requires forall i, j | 0 <= i < j < |desc| :: desc[i].captured >= desc[j].captured
    requires forall i, j | 0 <= i < j < |asc| :: asc[i].captured <= asc[j].captured
    ensures IsNeighbours(timeline, rec, n)
    ensures forall i: Instant | Named(n, i) ::
              var k := (i.lo, i.precision);
              k in groups && (set p | p in groups[k].evidence) == EvidenceAt(timeline, k)
  {
    ghost var early := set r | r in timeline && r.captured < rec.lo;
    ghost var late := set r | r in timeline && rec.lo <= r.captured;
    var groups1, best, seen1 := SeekBefore(desc, rec, early);
    var groups2, after, seen2 := SeekAfter(asc, rec, groups1, seen1, late);
    groups := groups2;
    ghost var seen := seen1 + seen2;
    var keys := SortedKeys(groups.Keys);
    var overlapping := Overlaps(groups, keys, rec);
    assert forall k :: k in groups <==> Present(seen, k);
    n := Neighbours(if best.None? then None else Some(InstantOf(groups, best.value)), overlapping,
                    if after.None? then None else Some(InstantOf(groups, after.value)));
    SeeksAreExact(timeline, rec, seen1, seen2, best, after, groups, keys, n);
  }

  ghost predicate Named(n: Neighbours, i: Instant) {
    n.before == Some(i) || i in n.overlapping || n.after == Some(i)
  }

  lemma SeenIsComplete(timeline: set<Row>, seen: set<Row>, k: InstantKey)
    requires seen <= timeline && forall r | r in timeline && KeyOf(r) == k :: r in seen
    ensures AccountsAt(seen, k) == AccountsAt(timeline, k) && EvidenceAt(seen, k) == EvidenceAt(timeline, k)
    ensures Present(seen, k) <==> Present(timeline, k)
  {}

  lemma SeeksAreExact(timeline: set<Row>, rec: Interval, seen1: set<Row>, seen2: set<Row>,
                      best: Option<InstantKey>, after: Option<InstantKey>,
                      groups: map<InstantKey, Group>, keys: seq<InstantKey>, n: Neighbours)
    requires ValidTimeline(timeline) && rec.lo < rec.hi
    requires seen1 <= (set r | r in timeline && r.captured < rec.lo)
    requires seen2 <= (set r | r in timeline && rec.lo <= r.captured)
    requires BestOf(seen1, rec, best) && FirstOf(seen2, rec, after) && Grouped(groups, seen1 + seen2)
    requires forall r | r in timeline && r.captured < rec.lo && r !in seen1 :: best.Some? && End(KeyOf(r)) < End(best.value)
    requires forall r | r in timeline && rec.lo <= r.captured && r !in seen2 :: after.Some? && after.value.0 < r.captured
    requires forall k :: k in keys <==> k in groups
    requires best.Some? ==> best.value in groups && n.before == Some(InstantOf(groups, best.value))
    requires best.None? ==> n.before.None?
    requires after.Some? ==> after.value in groups && n.after == Some(InstantOf(groups, after.value))
    requires after.None? ==> n.after.None?
    requires StrictlySorted(n.overlapping)
    requires forall q | 0 <= q < |n.overlapping| ::
          var k := (n.overlapping[q].lo, n.overlapping[q].precision);
          k in groups && n.overlapping[q] == InstantOf(groups, k) && Relate(k, rec) == Overlapping
    requires forall q | 0 <= q < |keys| && Relate(keys[q], rec) == Overlapping :: Lists(n.overlapping, keys[q])
    ensures IsNeighbours(timeline, rec, n)
    ensures forall i: Instant | Named(n, i) ::
              var k := (i.lo, i.precision);
              k in groups && (set p | p in groups[k].evidence) == EvidenceAt(timeline, k)
  {
    var seen := seen1 + seen2;
    forall k: InstantKey | k in groups && (best == Some(k) || after == Some(k) || Relate(k, rec) == Overlapping)
      ensures AccountsAt(seen, k) == AccountsAt(timeline, k) && EvidenceAt(seen, k) == EvidenceAt(timeline, k)
      ensures Present(timeline, k)
    {
      KeyIsComplete(timeline, rec, seen1, seen2, best, after, k);
    }
    OverlapsAreListed(timeline, rec, seen1, seen2, best, after, groups, keys, n);
    LatestIsBefore(timeline, rec, seen1, best, n.before);
    EarliestIsAfter(timeline, rec, seen2, after, n.after);
  }

  /** What the first seek saw decides the latest instant before the record. */
  lemma LatestIsBefore(timeline: set<Row>, rec: Interval, seen: set<Row>, best: Option<InstantKey>, o: Option<Instant>)
    requires rec.lo < rec.hi && ValidTimeline(timeline) && BestOf(seen, rec, best)
    requires forall r | r in timeline && r.captured < rec.lo && r !in seen :: best.Some? && End(KeyOf(r)) < End(best.value)
    requires if best.None? then o.None? else o.Some? && Complete(timeline, o.value) && (o.value.lo, o.value.precision) == best.value
    ensures IsBefore(timeline, rec, o)
  {}

  lemma EarliestIsAfter(timeline: set<Row>, rec: Interval, seen: set<Row>, after: Option<InstantKey>, o: Option<Instant>)
    requires rec.lo < rec.hi && ValidTimeline(timeline) && FirstOf(seen, rec, after)
    requires forall r | r in timeline && rec.lo <= r.captured && r !in seen :: after.Some? && after.value.0 < r.captured
    requires if after.None? then o.None? else o.Some? && Complete(timeline, o.value) && (o.value.lo, o.value.precision) == after.value
    ensures IsAfter(timeline, rec, o)
  {}

  /** Every row the seeks stopped short of lies strictly outside the instants they name. */
  ghost predicate Skipped(timeline: set<Row>, rec: Interval, seen1: set<Row>, seen2: set<Row>,
                          best: Option<InstantKey>, after: Option<InstantKey>) {
    && (forall r | r in timeline && r.captured < rec.lo && r !in seen1 :: best.Some? && End(KeyOf(r)) < End(best.value))
    && (forall r | r in timeline && rec.lo <= r.captured && r !in seen2 :: after.Some? && after.value.0 < r.captured)
    && (best.Some? ==> End(best.value) <= rec.lo && best.value.0 < rec.lo) && (after.Some? ==> after.value.0 >= rec.hi)
  }

  lemma KeyIsComplete(timeline: set<Row>, rec: Interval, seen1: set<Row>, seen2: set<Row>,
                      best: Option<InstantKey>, after: Option<InstantKey>, k: InstantKey)
    requires rec.lo < rec.hi && seen1 <= timeline && seen2 <= timeline && Present(seen1 + seen2, k)
    requires Skipped(timeline, rec, seen1, seen2, best, after)
    requires best == Some(k) || after == Some(k) || Relate(k, rec) == Overlapping
    ensures var seen := seen1 + seen2;
            AccountsAt(seen, k) == AccountsAt(timeline, k) && EvidenceAt(seen, k) == EvidenceAt(timeline, k) && Present(timeline, k)
  {
    SeenIsComplete(timeline, seen1 + seen2, k);
  }

  lemma OverlapsAreListed(timeline: set<Row>, rec: Interval, seen1: set<Row>, seen2: set<Row>,
                          best: Option<InstantKey>, after: Option<InstantKey>,
                          groups: map<InstantKey, Group>, keys: seq<InstantKey>, n: Neighbours)
    requires rec.lo < rec.hi && Skipped(timeline, rec, seen1, seen2, best, after)
    requires Grouped(groups, seen1 + seen2) && forall k :: k in keys <==> k in groups
    requires forall q | 0 <= q < |keys| && Relate(keys[q], rec) == Overlapping :: Lists(n.overlapping, keys[q])
    ensures forall r | r in timeline && Relate(KeyOf(r), rec) == Overlapping :: Lists(n.overlapping, KeyOf(r))
  {
    forall r | r in timeline && Relate(KeyOf(r), rec) == Overlapping
      ensures Lists(n.overlapping, KeyOf(r))
    {
      assert r in seen1 + seen2;
      assert KeyOf(r) in keys;
    }
  }

  /******* The rule *******/

  datatype Reason = ClockOrder | PreTimeline | AmbiguousInstant | OpenTail | SwitchWindow
  datatype Verdict = Agreement(account: Account, usedClosingCapture: bool) | Fallback(ingest: Account, reason: Reason)
  datatype ClosingCapture = ClosingCapture(account: Account, at: int)

  predicate Ambiguous(i: Instant) { |i.accounts| != 1 }

  /** Every account the neighbours name. */
  function Consulted(n: Neighbours, after: Instant): set<Account>
    requires n.before.Some?
  {
    n.before.value.accounts + after.accounts + set i, a | i in n.overlapping && a in i.accounts :: a
  }

  /** The decision table, in its order, for a record whose timestamp parsed. */
  function Decide(rec: Interval, n: Neighbours, cutoff: int, closing: Option<ClosingCapture>, ingest: Account): Verdict {
    if rec.hi > cutoff then Fallback(ingest, ClockOrder)
    else if n.before.None? then Fallback(ingest, PreTimeline)
    else
      var used := n.after.None? && closing.Some?;
      var after := if used then Some(Instant(closing.value.at, 1, {closing.value.account})) else n.after;
      if Ambiguous(n.before.value) || (exists i | i in n.overlapping :: Ambiguous(i))
         || (after.Some? && Ambiguous(after.value)) then Fallback(ingest, AmbiguousInstant)
      else if after.None? then Fallback(ingest, OpenTail)
      else
        var accounts := Consulted(n, after.value);
        if exists a :: a in accounts && accounts == {a} then
          var a :| a in accounts && accounts == {a};
          Agreement(a, used)
        else Fallback(ingest, SwitchWindow)
  }

  /** An observation the rule consults: overlapping the record, or at the nearest instant on either side. */
  ghost predicate Witness(timeline: set<Row>, rec: Interval, r: Row) {
    match Relate(KeyOf(r), rec)
    case Overlapping => true
    case Before => forall q | q in timeline && Relate(KeyOf(q), rec) == Before ::
        !Less((End(KeyOf(r)), r.captured), (End(KeyOf(q)), q.captured))
    case After => forall q | q in timeline && Relate(KeyOf(q), rec) == After :: !KeyLess(KeyOf(q), KeyOf(r))
  }

  ghost predicate Seen(timeline: set<Row>, rec: Interval, side: Relation) {
    exists r :: r in timeline && Relate(KeyOf(r), rec) == side
  }

  /**
  When the rule names an account. An agreement on `a` is reached exactly when the record lies inside the
  clock, the timeline has an observation before it, something closes it, and EVERY observation consulted
  names `a` - so no observed switch between the nearest observations on either side is ever overlooked.
  */
  lemma AgreementIff(timeline: set<Row>, rec: Interval, n: Neighbours, cutoff: int,
                     closing: Option<ClosingCapture>, ingest: Account, a: Account)
    requires ValidTimeline(timeline) && rec.lo < rec.hi && IsNeighbours(timeline, rec, n)
    ensures var v := Decide(rec, n, cutoff, closing, ingest);
            v.Agreement? && v.account == a <==>
              && rec.hi <= cutoff && Seen(timeline, rec, Before)
              && (Seen(timeline, rec, After) || (closing.Some? && closing.value.account == a))
              && forall r | r in timeline && Witness(timeline, rec, r) :: r.account == a
  {
    if n.before.Some? && (n.after.Some? || closing.Some?) {
      var after := if n.after.Some? then n.after.value else Instant(closing.value.at, 1, {closing.value.account});
      NamedHaveAccounts(timeline, rec, n);
      DecideAgrees(rec, n, cutoff, closing, ingest, a, after);
      ConsultedAre(timeline, rec, n, closing, a, after);
    }
    SidesSeen(timeline, rec, n);
  }

  /** Observations of one consulted instant name two accounts. */
  ghost predicate Split(timeline: set<Row>, rec: Interval) {
    exists r, q :: r in timeline && q in timeline && Witness(timeline, rec, r) && Witness(timeline, rec, q)
                   && KeyOf(r) == KeyOf(q) && r.account != q.account
  }

  /** Observations consulted name two accounts, or another one than the closing capture standing in for the next. */
  ghost predicate Switch(timeline: set<Row>, rec: Interval, closing: Option<ClosingCapture>) {
    || (exists r, q :: r in timeline && q in timeline && Witness(timeline, rec, r) && Witness(timeline, rec, q) && r.account != q.account)
    || (!Seen(timeline, rec, After) && closing.Some?
        && exists r :: r in timeline && Witness(timeline, rec, r) && r.account != closing.value.account)
  }

  /**
  The reason of every fallback, on the timeline. A fallback keeps the account ingested under, and its reason is
  the first that holds of: past the clock, nothing before, a split instant, nothing after and no capture, a switch.
  */
  lemma FallbackIff(timeline: set<Row>, rec: Interval, n: Neighbours, cutoff: int, closing: Option<ClosingCapture>, ingest: Account)
    requires ValidTimeline(timeline) && rec.lo < rec.hi && IsNeighbours(timeline, rec, n)
    ensures var v := Decide(rec, n, cutoff, closing, ingest);
            var before, after := Seen(timeline, rec, Before), Seen(timeline, rec, After);
            && (v.Agreement? ==> v.usedClosingCapture == !after)
            && (v == Fallback(ingest, ClockOrder) <==> rec.hi > cutoff)
            && (v == Fallback(ingest, PreTimeline) <==> rec.hi <= cutoff && !before)
            && (v == Fallback(ingest, AmbiguousInstant) <==> rec.hi <= cutoff && before && Split(timeline, rec))
            && (v == Fallback(ingest, OpenTail) <==>
                  rec.hi <= cutoff && before && !Split(timeline, rec) && !after && closing.None?)
            && (v == Fallback(ingest, SwitchWindow) <==>
                  rec.hi <= cutoff && before && !Split(timeline, rec) && (after || closing.Some?) && Switch(timeline, rec, closing))
  {
    SidesSeen(timeline, rec, n);
    SplitIsAmbiguous(timeline, rec, n);
    AmbiguousSides(n);
    if n.before.Some? && (n.after.Some? || closing.Some?) {
      SwitchIsDisagreement(timeline, rec, n, cutoff, closing, ingest);
    }
  }

  lemma AmbiguousSides(n: Neighbours)
    ensures AnyAmbiguous(n) <==> (n.before.Some? && Ambiguous(n.before.value)) || (n.after.Some? && Ambiguous(n.after.value))
                                 || exists i :: i in n.overlapping && Ambiguous(i)
  {
    assert n.before.Some? ==> Named(n, n.before.value);
    assert n.after.Some? ==> Named(n, n.after.value);
    assert forall i | i in n.overlapping :: Named(n, i);
  }

  ghost predicate AnyAmbiguous(n: Neighbours) { exists i :: Named(n, i) && Ambiguous(i) }

  lemma SplitIsAmbiguous(timeline: set<Row>, rec: Interval, n: Neighbours)
    requires ValidTimeline(timeline) && rec.lo < rec.hi && IsNeighbours(timeline, rec, n)
    ensures Split(timeline, rec) <==> AnyAmbiguous(n)
  {
    if Split(timeline, rec) {
      var r, q :| r in timeline && q in timeline && Witness(timeline, rec, r) && Witness(timeline, rec, q)
                  && KeyOf(r) == KeyOf(q) && r.account != q.account;
      var i := WitnessInstant(timeline, rec, n, r);
      BothAt(timeline, r, q, i.accounts);
      assert Named(n, i) && Ambiguous(i);
    }
    if AnyAmbiguous(n) {
      var i :| Named(n, i) && Ambiguous(i);
      AmbiguousIsSplit(timeline, rec, n, i);
    }
  }

  lemma BothAt(timeline: set<Row>, r: Row, q: Row, accounts: set<Account>)
    requires r in timeline && q in timeline && KeyOf(r) == KeyOf(q) && r.account != q.account
    requires accounts == AccountsAt(timeline, KeyOf(r))
    ensures |accounts| != 1
  {
    assert r.account in accounts && q.account in accounts;
    TwoAccounts(accounts, r.account, q.account);
  }

  lemma AmbiguousIsSplit(timeline: set<Row>, rec: Interval, n: Neighbours, i: Instant)
    requires ValidTimeline(timeline) && rec.lo < rec.hi && IsNeighbours(timeline, rec, n) && Named(n, i) && |i.accounts| != 1
    ensures Split(timeline, rec)
  {
    NamedAccounts(timeline, rec, n, i);
    NamedIsComplete(timeline, rec, n, i);
    var x, y := SomeTwo(i.accounts);
    var r := RowOf(timeline, (i.lo, i.precision), x);
    var q := RowOf(timeline, (i.lo, i.precision), y);
    AtNamed(timeline, rec, n, i, r);
    AtNamed(timeline, rec, n, i, q);
  }

  lemma NamedIsComplete(timeline: set<Row>, rec: Interval, n: Neighbours, i: Instant)
    requires IsNeighbours(timeline, rec, n) && Named(n, i)
    ensures i.accounts == AccountsAt(timeline, (i.lo, i.precision))
  {}

  lemma RowOf(timeline: set<Row>, k: InstantKey, x: Account) returns (r: Row)
    requires x in AccountsAt(timeline, k)
    ensures r in timeline && KeyOf(r) == k && r.account == x
  {
    r :| r in timeline && KeyOf(r) == k && r.account == x;
  }

  lemma TwoAccounts(s: set<Account>, x: Account, y: Account)
    requires x in s && y in s && x != y
    ensures |s| != 1
  {
    assert |s - {x}| == |s| - 1 && y in s - {x};
  }

  lemma SomeTwo(s: set<Account>) returns (x: Account, y: Account)
    requires s != {} && |s| != 1
    ensures x in s && y in s && x != y
  {
    x :| x in s;
    assert s != {x};
    y :| y in s && y != x;
  }

  /** The instant a consulted observation stands at. */
  lemma WitnessInstant(timeline: set<Row>, rec: Interval, n: Neighbours, r: Row) returns (i: Instant)
    requires ValidTimeline(timeline) && rec.lo < rec.hi && IsNeighbours(timeline, rec, n)
    requires r in timeline && Witness(timeline, rec, r)
    ensures Named(n, i) && (i.lo, i.precision) == KeyOf(r) && i.accounts == AccountsAt(timeline, KeyOf(r))
  {
    match Relate(KeyOf(r), rec)
    case Overlapping =>
      assert Lists(n.overlapping, KeyOf(r));
      var k :| 0 <= k < |n.overlapping| && (n.overlapping[k].lo, n.overlapping[k].precision) == KeyOf(r);
      i := n.overlapping[k];
    case Before =>
      i := n.before.value;
      ghost var q :| q in timeline && KeyOf(q) == (i.lo, i.precision);
      assert KeyOf(r) == KeyOf(q);
    case After =>
      i := n.after.value;
      ghost var q :| q in timeline && KeyOf(q) == (i.lo, i.precision);
      assert KeyOf(r) == KeyOf(q);
  }

  /** With a side on both ends, some consulted observations disagree exactly when no account is agreed on. */
  lemma SwitchIsDisagreement(timeline: set<Row>, rec: Interval, n: Neighbours, cutoff: int, closing: Option<ClosingCapture>, ingest: Account)
    requires ValidTimeline(timeline) && rec.lo < rec.hi && IsNeighbours(timeline, rec, n) && n.before.Some?
    requires n.after.Some? || closing.Some?
    ensures rec.hi <= cutoff ==> (Decide(rec, n, cutoff, closing, ingest).Agreement? <==> !Switch(timeline, rec, closing))
  {
    SidesSeen(timeline, rec, n);
    var v := Decide(rec, n, cutoff, closing, ingest);
    if v.Agreement? {
      AgreementIff(timeline, rec, n, cutoff, closing, ingest, v.account);
    }
    if rec.hi <= cutoff && !Switch(timeline, rec, closing) {
      var w := SomeWitness(timeline, rec, n);
      AgreementIff(timeline, rec, n, cutoff, closing, ingest, w.account);
    }
  }

  lemma SomeWitness(timeline: set<Row>, rec: Interval, n: Neighbours) returns (r: Row)
    requires ValidTimeline(timeline) && rec.lo < rec.hi && IsNeighbours(timeline, rec, n) && n.before.Some?
    ensures r in timeline && Witness(timeline, rec, r)
  {
    NamedAccounts(timeline, rec, n, n.before.value);
    var x :| x in n.before.value.accounts;
    r :| r in timeline && Witness(timeline, rec, r) && r.account == x;
  }

  lemma SidesSeen(timeline: set<Row>, rec: Interval, n: Neighbours)
    requires ValidTimeline(timeline) && rec.lo < rec.hi && IsNeighbours(timeline, rec, n)
    ensures n.before.Some? <==> Seen(timeline, rec, Before)
    ensures n.after.Some? <==> Seen(timeline, rec, After)
  {
    WitnessAccounts(timeline, rec, n);
  }

  lemma NamedHaveAccounts(timeline: set<Row>, rec: Interval, n: Neighbours)
    requires ValidTimeline(timeline) && rec.lo < rec.hi && IsNeighbours(timeline, rec, n)
    ensures n.before.Some? ==> n.before.value.accounts != {}
    ensures n.after.Some? ==> n.after.value.accounts != {}
    ensures forall i | i in n.overlapping :: i.accounts != {}
  {
    WitnessAccounts(timeline, rec, n);
  }

  lemma DecideAgrees(rec: Interval, n: Neighbours, cutoff: int, closing: Option<ClosingCapture>,
                     ingest: Account, a: Account, after: Instant)
    requires n.before.Some? && n.before.value.accounts != {} && after.accounts != {}
    requires forall i | i in n.overlapping :: i.accounts != {}
    requires if n.after.Some? then after == n.after.value
             else closing.Some? && after == Instant(closing.value.at, 1, {closing.value.account})
    ensures var v := Decide(rec, n, cutoff, closing, ingest);
            v.Agreement? && v.account == a <==> rec.hi <= cutoff && Consulted(n, after) == {a}
  {
    var all := Consulted(n, after);
    if all == {a} {
      OneAccount(n.before.value.accounts, a);
      OneAccount(after.accounts, a);
      forall i | i in n.overlapping ensures !Ambiguous(i) {
        assert forall x | x in i.accounts :: x in all;
        OneAccount(i.accounts, a);
      }
      assert a in all;
    }
  }

  lemma ConsultedAre(timeline: set<Row>, rec: Interval, n: Neighbours, closing: Option<ClosingCapture>, a: Account, after: Instant)
    requires ValidTimeline(timeline) && rec.lo < rec.hi && IsNeighbours(timeline, rec, n) && n.before.Some?
    requires if n.after.Some? then after == n.after.value
             else closing.Some? && after == Instant(closing.value.at, 1, {closing.value.account})
    ensures Consulted(n, after) == {a} <==>
              && (n.after.Some? || closing.value.account == a)
              && forall r | r in timeline && Witness(timeline, rec, r) :: r.account == a
  {
    var all := Consulted(n, after);
    forall r | r in timeline && Witness(timeline, rec, r) ensures r.account in all {
      WitnessIsNamed(timeline, rec, n, r);
    }
    if (n.after.Some? || closing.value.account == a) && forall r | r in timeline && Witness(timeline, rec, r) :: r.account == a {
      forall x | x in all ensures x == a {
        ConsultedIsWitnessed(timeline, rec, n, after, x);
      }
      NamedHaveAccounts(timeline, rec, n);
      assert n.before.value.accounts <= all;
      assert all == {a};
    }
  }

  lemma ConsultedIsWitnessed(timeline: set<Row>, rec: Interval, n: Neighbours, after: Instant, x: Account)
    requires ValidTimeline(timeline) && rec.lo < rec.hi && IsNeighbours(timeline, rec, n)
    requires n.before.Some? && (n.after.Some? ==> after == n.after.value) && x in Consulted(n, after)
    ensures (exists r :: r in timeline && Witness(timeline, rec, r) && r.account == x) || (n.after.None? && x in after.accounts)
  {
    ConsultedIsNamed(n, after, x);
    if exists i :: Named(n, i) && x in i.accounts {
      var i :| Named(n, i) && x in i.accounts;
      NamedAccounts(timeline, rec, n, i);
    }
  }

  lemma ConsultedIsNamed(n: Neighbours, after: Instant, x: Account)
    requires n.before.Some? && (n.after.Some? ==> after == n.after.value) && x in Consulted(n, after)
    ensures (exists i :: Named(n, i) && x in i.accounts) || (n.after.None? && x in after.accounts)
  {
    if x in n.before.value.accounts {
      assert Named(n, n.before.value);
    } else if x in after.accounts && n.after.Some? {
      assert Named(n, n.after.value);
    } else if exists i :: i in n.overlapping && x in i.accounts {
      var i :| i in n.overlapping && x in i.accounts;
      assert Named(n, i);
    }
  }

  lemma OneAccount(s: set<Account>, a: Account)
    requires s != {} && s <= {a}
    ensures s == {a} && |s| == 1
  {
    var x :| x in s;
    assert s == {a};
  }

  /** The accounts of the three neighbours are the accounts of the witnesses, and none is empty. */
  lemma WitnessAccounts(timeline: set<Row>, rec: Interval, n: Neighbours)
    requires ValidTimeline(timeline) && rec.lo < rec.hi && IsNeighbours(timeline, rec, n)
    ensures n.before.Some? <==> Seen(timeline, rec, Before)
    ensures n.after.Some? <==> Seen(timeline, rec, After)
    ensures n.before.Some? ==> n.before.value.accounts != {}
    ensures n.after.Some? ==> n.after.value.accounts != {}
    ensures forall i | i in n.overlapping :: i.accounts != {}
    ensures forall r | r in timeline && Witness(timeline, rec, r) ::
              && (Relate(KeyOf(r), rec) == Before ==> n.before.Some? && r.account in n.before.value.accounts)
              && (Relate(KeyOf(r), rec) == After ==> n.after.Some? && r.account in n.after.value.accounts)
              && (Relate(KeyOf(r), rec) == Overlapping ==> exists i :: i in n.overlapping && r.account in i.accounts)
    ensures forall i, x | Named(n, i) && x in i.accounts ::
              exists r :: r in timeline && Witness(timeline, rec, r) && r.account == x
  {
    forall i: Instant | Named(n, i)
      ensures i.accounts != {}
      ensures forall x | x in i.accounts :: exists r :: r in timeline && Witness(timeline, rec, r) && r.account == x
    {
      NamedAccounts(timeline, rec, n, i);
    }
    forall r | r in timeline && Witness(timeline, rec, r)
      ensures Relate(KeyOf(r), rec) == Before ==> n.before.Some? && r.account in n.before.value.accounts
      ensures Relate(KeyOf(r), rec) == After ==> n.after.Some? && r.account in n.after.value.accounts
      ensures Relate(KeyOf(r), rec) == Overlapping ==> exists i :: i in n.overlapping && r.account in i.accounts
    {
      WitnessIsNamed(timeline, rec, n, r);
    }
    assert n.before.Some? ==> Named(n, n.before.value) && Present(timeline, (n.before.value.lo, n.before.value.precision));
    assert n.after.Some? ==> Named(n, n.after.value) && Present(timeline, (n.after.value.lo, n.after.value.precision));
  }

  /** The observations of a named instant are witnesses, and its accounts are theirs. */
  lemma NamedAccounts(timeline: set<Row>, rec: Interval, n: Neighbours, i: Instant)
    requires ValidTimeline(timeline) && rec.lo < rec.hi && IsNeighbours(timeline, rec, n) && Named(n, i)
    ensures i.accounts != {}
    ensures forall x | x in i.accounts :: exists r :: r in timeline && Witness(timeline, rec, r) && r.account == x
  {
    assert Present(timeline, (i.lo, i.precision)) && i.accounts == AccountsAt(timeline, (i.lo, i.precision));
    forall r | r in timeline && KeyOf(r) == (i.lo, i.precision) ensures Witness(timeline, rec, r) {
      AtNamed(timeline, rec, n, i, r);
    }
    var r :| r in timeline && KeyOf(r) == (i.lo, i.precision);
    assert r.account in i.accounts;
  }

  lemma AtNamed(timeline: set<Row>, rec: Interval, n: Neighbours, i: Instant, r: Row)
    requires ValidTimeline(timeline) && rec.lo < rec.hi && IsNeighbours(timeline, rec, n) && Named(n, i)
    requires r in timeline && KeyOf(r) == (i.lo, i.precision)
    ensures Witness(timeline, rec, r)
  {}

  lemma WitnessIsNamed(timeline: set<Row>, rec: Interval, n: Neighbours, r: Row)
    requires ValidTimeline(timeline) && rec.lo < rec.hi && IsNeighbours(timeline, rec, n)
    requires r in timeline && Witness(timeline, rec, r)
    ensures Relate(KeyOf(r), rec) == Before ==> n.before.Some? && r.account in n.before.value.accounts
    ensures Relate(KeyOf(r), rec) == After ==> n.after.Some? && r.account in n.after.value.accounts
    ensures Relate(KeyOf(r), rec) == Overlapping ==> exists i :: i in n.overlapping && r.account in i.accounts
  {
    match Relate(KeyOf(r), rec)
    case Overlapping =>
      assert Lists(n.overlapping, KeyOf(r));
      var i :| 0 <= i < |n.overlapping| && (n.overlapping[i].lo, n.overlapping[i].precision) == KeyOf(r);
      assert n.overlapping[i] in n.overlapping;
    case Before =>
      var b := n.before.value;
      ghost var q :| q in timeline && KeyOf(q) == (b.lo, b.precision);
      assert KeyOf(r) == KeyOf(q);
    case After =>
      var b := n.after.value;
      ghost var q :| q in timeline && KeyOf(q) == (b.lo, b.precision);
      assert KeyOf(r) == KeyOf(q);
  }
}
