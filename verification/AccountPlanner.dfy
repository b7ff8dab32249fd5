/**
Planning an attribution: bucketing observations into physical window groups, the bisected per-root spend
index, and what a range means for the group it names and for the record it leaves.
*/
module AccountPlanner {
  import opened Wrappers

  const MINUTE_US := 60_000_000
  const WEEKLY_MINUTES := 10_080

  datatype GroupKey = GroupKey(root: string, pool: string, slot: string, windowMinutes: nat, anchor: int) {
    /** The nominal window `[start, anchor)`. */
    function Start(): int { anchor - windowMinutes * MINUTE_US }
  }

  /** One quota observation; `account` is absent for the unattributed sentinel. */
  datatype Observation = Observation(key: GroupKey, captured: int, account: Option<string>, resets: string, modelScoped: bool)

  /** One accounting row; `account` is absent for a missing, empty or sentinel stamp. */
  datatype Spend = Spend(at: int, account: Option<string>)

  datatype Bucket = Bucket(members: seq<Observation>, accounts: set<string>, resets: set<string>, modelScoped: bool)

  datatype Code = PartialGroup | NotWeekly | ModelScoped | NativeConflict | AssertionConflict | SpendConflict
  datatype Disposition = Refused | NoOp | Eligible
  datatype Planned = Planned(key: GroupKey, disposition: Disposition, codes: set<Code>, native: set<string>,
                             asserted: set<string>, observationCount: nat, spendCandidates: nat)

  /******* The spend index *******/

  ghost predicate Sorted(rows: seq<Spend>) { forall i, j | 0 <= i < j < |rows| :: rows[i].at <= rows[j].at }

  /** The naive reading: every row of the root in `[start, end)`. */
  function InWindow(rows: seq<Spend>, start: int, end: int): seq<Spend> {
    if rows == [] then [] else
      InWindow(rows[..|rows| - 1], start, end)
      + if start <= rows[|rows| - 1].at < end then [rows[|rows| - 1]] else []
  }

  function Insert(rows: seq<Spend>, r: Spend): seq<Spend> {
    if rows == [] || rows[|rows| - 1].at <= r.at then rows + [r] else Insert(rows[..|rows| - 1], r) + [rows[|rows| - 1]]
  }

  lemma {:induction false} InsertSorts(rows: seq<Spend>, r: Spend)
    requires Sorted(rows)
    ensures Sorted(Insert(rows, r))
    ensures Insert(rows, r) != []
    ensures Insert(rows, r)[|Insert(rows, r)| - 1].at ==
              if rows == [] || rows[|rows| - 1].at <= r.at then r.at else rows[|rows| - 1].at
  {
    if rows != [] && rows[|rows| - 1].at > r.at {
      InsertSorts(rows[..|rows| - 1], r);
    }
  }

  lemma {:induction false} InsertKeeps(rows: seq<Spend>, r: Spend)
    ensures multiset(Insert(rows, r)) == multiset(rows) + multiset{r}
  {
    if rows != [] && rows[|rows| - 1].at > r.at {
      InsertKeeps(rows[..|rows| - 1], r);
      assert rows == rows[..|rows| - 1] + [rows[|rows| - 1]];
    }
  }

  /** The rows of one root by instant, ties in query order. */
  method SpendIndex(rows: seq<Spend>) returns (index: seq<Spend>)
    ensures Sorted(index) && multiset(index) == multiset(rows)
  {
    index := [];
    for i := 0 to |rows|
      invariant Sorted(index) && multiset(index) == multiset(rows[..i])
    {
      InsertSorts(index, rows[i]);
      InsertKeeps(index, rows[i]);
      index := Insert(index, rows[i]);
      assert rows[..i + 1] == rows[..i] + [rows[i]];
    }
    assert rows[..|rows|] == rows;
  }

  /** `bisect_left` over the index's instants. */
  method BisectLeft(index: seq<Spend>, x: int) returns (cut: nat)
    requires Sorted(index)
    ensures cut <= |index|
    ensures forall i | 0 <= i < cut :: index[i].at < x
    ensures forall i | cut <= i < |index| :: x <= index[i].at
  {
    var lo, hi := 0, |index|;
    while lo < hi
      invariant 0 <= lo <= hi <= |index|
      invariant forall i | 0 <= i < lo :: index[i].at < x
      invariant forall i | hi <= i < |index| :: x <= index[i].at
    {
      var mid := (lo + hi) / 2;
      if index[mid].at < x { lo := mid + 1; } else { hi := mid; }
    }
    cut := lo;
  }

  lemma {:induction false} InWindowOf(rows: seq<Spend>, low: nat, high: nat, start: int, end: int)
    requires low <= high <= |rows|
    requires forall i | 0 <= i < |rows| :: start <= rows[i].at < end <==> low <= i < high
    ensures InWindow(rows, start, end) == rows[low..high]
  {
    if rows != [] {
      var n := |rows| - 1;
      var front := rows[..n];
      if high <= n {
        InWindowOf(front, low, high, start, end);
        assert front[low..high] == rows[low..high];
      } else if low <= n {
        InWindowOf(front, low, n, start, end);
        assert front[low..n] + [rows[n]] == rows[low..high];
      } else {
        InWindowOf(front, n, n, start, end);
      }
    }
  }

  lemma {:induction false} InWindowPermutes(a: seq<Spend>, b: seq<Spend>, start: int, end: int)
    requires multiset(a) == multiset(b)
    ensures multiset(InWindow(a, start, end)) == multiset(InWindow(b, start, end))
  {
    forall s: Spend ensures multiset(InWindow(a, start, end))[s] == multiset(InWindow(b, start, end))[s] {
      InWindowCounts(a, start, end, s);
      InWindowCounts(b, start, end, s);
    }
  }

  lemma {:induction false} InWindowCounts(rows: seq<Spend>, start: int, end: int, s: Spend)
    ensures multiset(InWindow(rows, start, end))[s] == if start <= s.at < end then multiset(rows)[s] else 0
  {
    if rows != [] {
      InWindowCounts(rows[..|rows| - 1], start, end, s);
      assert rows == rows[..|rows| - 1] + [rows[|rows| - 1]];
    }
  }

  /** The bisected slice of a sorted index is exactly what filtering it gives. */
  method SpendSlice(index: seq<Spend>, start: int, end: int) returns (slice: seq<Spend>)
    requires Sorted(index) && start <= end
    ensures slice == InWindow(index, start, end)
  {
    var low := BisectLeft(index, start);
    var high := BisectLeft(index, end);
    assert low > 0 ==> index[low - 1].at < start;
    InWindowOf(index, low, high, start, end);
    slice := index[low..high];
  }

  function Unattributed(rows: seq<Spend>): nat {
    if rows == [] then 0 else Unattributed(rows[..|rows| - 1]) + if rows[|rows| - 1].account.None? then 1 else 0
  }

  function OtherAccounts(rows: seq<Spend>, account: string): set<string> {
    set r | r in rows && r.account.Some? && r.account.value != account :: r.account.value
  }

  /** A sequence without its element at `i`. */
  function Without(b: seq<Spend>, i: nat): seq<Spend>
    requires i < |b|
  {
    b[..i] + b[i + 1..]
  }

  lemma WithoutOne(b: seq<Spend>, i: nat)
    requires i < |b|
    ensures b == b[..i] + [b[i]] + b[i + 1..]
    ensures multiset(b) == multiset(Without(b, i)) + multiset{b[i]}
    ensures multiset(Without(b, i)) == multiset(b) - multiset{b[i]}
  {
    assert b == b[..i] + [b[i]] + b[i + 1..];
  }

  lemma UnattributedSnoc(s: seq<Spend>, x: Spend)
    ensures Unattributed(s + [x]) == Unattributed(s) + if x.account.None? then 1 else 0
  {
    assert (s + [x])[..|s|] == s;
  }

  lemma UnattributedAround(front: seq<Spend>, x: Spend, back: seq<Spend>)
    ensures Unattributed(front + [x] + back) == Unattributed(front + back) + if x.account.None? then 1 else 0
  {
    UnattributedConcat(front + [x], back);
    UnattributedSnoc(front, x);
    UnattributedConcat(front, back);
  }

  lemma UnattributedWithoutOne(b: seq<Spend>, i: nat)
    requires i < |b|
    ensures Unattributed(b) == Unattributed(Without(b, i)) + if b[i].account.None? then 1 else 0
  {
    WithoutOne(b, i);
    UnattributedAround(b[..i], b[i], b[i + 1..]);
  }

  lemma Occurs(a: seq<Spend>, b: seq<Spend>, x: Spend) returns (i: nat)
    requires multiset(a) == multiset(b) && x in a
    ensures i < |b| && b[i] == x
  {
    assert x in multiset(b);
    i :| i < |b| && b[i] == x;
  }

  lemma {:induction false} UnattributedPermutes(a: seq<Spend>, b: seq<Spend>)
    requires multiset(a) == multiset(b)
    ensures Unattributed(a) == Unattributed(b)
    decreases |a|
  {
    if a == [] {
      assert |multiset(b)| == |b|;
    } else {
      var n := |a| - 1;
      var i := Occurs(a, b, a[n]);
      WithoutOne(a, n);
      WithoutOne(b, i);
      UnattributedPermutes(Without(a, n), Without(b, i));
      UnattributedWithoutOne(a, n);
      UnattributedWithoutOne(b, i);
    }
  }

  lemma {:induction false} UnattributedConcat(a: seq<Spend>, b: seq<Spend>)
    ensures Unattributed(a + b) == Unattributed(a) + Unattributed(b)
  {
    if b == [] {
      assert a + b == a;
    } else {
      UnattributedConcat(a, b[..|b| - 1]);
      assert (a + b)[..|a + b| - 1] == a + b[..|b| - 1];
    }
  }

  lemma OtherAccountsPermute(a: seq<Spend>, b: seq<Spend>, account: string)
    requires multiset(a) == multiset(b)
    ensures OtherAccounts(a, account) == OtherAccounts(b, account)
  {
    assert forall r :: r in a <==> r in multiset(a);
    assert forall r :: r in b <==> r in multiset(b);
  }

  method CountSlice(slice: seq<Spend>, account: string) returns (candidates: nat, conflicts: set<string>)
    ensures candidates == Unattributed(slice) && conflicts == OtherAccounts(slice, account)
  {
    candidates, conflicts := 0, {};
    for i := 0 to |slice|
      invariant candidates == Unattributed(slice[..i])
      invariant conflicts == OtherAccounts(slice[..i], account)
    {
      assert slice[..i + 1][..i] == slice[..i];
      assert forall r :: r in slice[..i + 1] <==> r in slice[..i] || r == slice[i];
      match slice[i].account
      case None => candidates := candidates + 1;
      case Some(a) => if a != account { conflicts := conflicts + {a}; }
    }
    assert slice[..|slice|] == slice;
  }

  /** Unattributed rows and conflicting accounts of one group, through the index: the naive counts. */
  method GroupSpend(rows: seq<Spend>, start: int, end: int, account: string) returns (candidates: nat, conflicts: set<string>)
    requires start <= end
    ensures candidates == Unattributed(InWindow(rows, start, end)) == |UnclaimedIn(rows, start, end)|
    ensures conflicts == OtherAccounts(InWindow(rows, start, end), account)
    ensures conflicts != {} <==> Conflicting(rows, start, end, account)
  {
    var index := SpendIndex(rows);
    var slice := SpendSlice(index, start, end);
    InWindowPermutes(index, rows, start, end);
    UnattributedPermutes(slice, InWindow(rows, start, end));
    OtherAccountsPermute(slice, InWindow(rows, start, end), account);
    candidates, conflicts := CountSlice(slice, account);
    UnattributedIs(rows, start, end);
    InWindowIs(rows, start, end);
    ConflictExists(InWindow(rows, start, end), account);
  }

  /** The rows without an account in `[start, end)`, by their places. */
  ghost function UnclaimedIn(rows: seq<Spend>, start: int, end: int): set<nat> {
    set i: nat | i < |rows| && start <= rows[i].at < end && rows[i].account.None?
  }

  /** Some row in `[start, end)` is another account's. */
  ghost predicate Conflicting(rows: seq<Spend>, start: int, end: int, account: string) {
    exists r :: r in rows && start <= r.at < end && r.account.Some? && r.account.value != account
  }

  lemma {:induction false} UnattributedIs(rows: seq<Spend>, start: int, end: int)
    ensures Unattributed(InWindow(rows, start, end)) == |UnclaimedIn(rows, start, end)|
  {
    if rows != [] {
      var front, x := rows[..|rows| - 1], rows[|rows| - 1];
      UnattributedIs(front, start, end);
      UnattributedStep(front, x, start, end);
      assert rows == front + [x];
    }
  }

  lemma UnattributedStep(front: seq<Spend>, x: Spend, start: int, end: int)
    requires Unattributed(InWindow(front, start, end)) == |UnclaimedIn(front, start, end)|
    ensures Unattributed(InWindow(front + [x], start, end)) == |UnclaimedIn(front + [x], start, end)|
  {
    InWindowSnoc(front, x, start, end);
    UnattributedSnoc(InWindow(front, start, end), x);
    OneMoreUnclaimed(front, x, start, end);
  }

  lemma InWindowSnoc(front: seq<Spend>, x: Spend, start: int, end: int)
    ensures InWindow(front + [x], start, end) == if start <= x.at < end then InWindow(front, start, end) + [x] else InWindow(front, start, end)
  {
    assert (front + [x])[..|front|] == front;
  }

  lemma OneMoreUnclaimed(front: seq<Spend>, x: Spend, start: int, end: int)
    ensures |UnclaimedIn(front + [x], start, end)|
         == |UnclaimedIn(front, start, end)| + if start <= x.at < end && x.account.None? then 1 else 0
  {
    assert UnclaimedIn(front + [x], start, end)
        == UnclaimedIn(front, start, end) + if start <= x.at < end && x.account.None? then {|front|} else {};
  }

  lemma {:induction false} InWindowIs(rows: seq<Spend>, start: int, end: int)
    ensures forall r :: r in InWindow(rows, start, end) <==> r in rows && start <= r.at < end
  {
    if rows != [] {
      var front := rows[..|rows| - 1];
      InWindowIs(front, start, end);
      assert rows == front + [rows[|rows| - 1]];
    }
  }

  /******* The groups *******/

  function Members(obs: seq<Observation>, k: GroupKey): seq<Observation> {
    if obs == [] then [] else
      Members(obs[..|obs| - 1], k) + if obs[|obs| - 1].key == k then [obs[|obs| - 1]] else []
  }

  function BucketOf(members: seq<Observation>): Bucket {
    Bucket(members,
           set o | o in members && o.account.Some? :: o.account.value,
           set o | o in members :: o.resets,
           exists o :: o in members && o.modelScoped)
  }

  /** The observations of a group, by their places. */
  ghost function PlacesOf(obs: seq<Observation>, k: GroupKey): set<nat> { set i: nat | i < |obs| && obs[i].key == k }

  /** What the observations say of a group: how many there are, which accounts and resets, and whether any is model-scoped. */
  ghost predicate Describes(obs: seq<Observation>, k: GroupKey, b: Bucket) {
    && |b.members| == |PlacesOf(obs, k)|
    && (forall o :: o in b.members <==> o in obs && o.key == k)
    && (forall a :: a in b.accounts <==> exists o :: o in obs && o.key == k && o.account == Some(a))
    && (forall w :: w in b.resets <==> exists o :: o in obs && o.key == k && o.resets == w)
    && (b.modelScoped <==> exists o :: o in obs && o.key == k && o.modelScoped)
  }

  lemma {:induction false} MembersAre(obs: seq<Observation>, k: GroupKey)
    ensures forall o :: o in Members(obs, k) <==> o in obs && o.key == k
    ensures |Members(obs, k)| == |PlacesOf(obs, k)|
  {
    if obs != [] {
      var front, o := obs[..|obs| - 1], obs[|obs| - 1];
      MembersAre(front, k);
      OneMorePlace(front, o, k);
      assert obs == front + [o];
    }
  }

  lemma OneMorePlace(front: seq<Observation>, o: Observation, k: GroupKey)
    ensures |PlacesOf(front + [o], k)| == |PlacesOf(front, k)| + if o.key == k then 1 else 0
  {
    assert PlacesOf(front + [o], k) == PlacesOf(front, k) + if o.key == k then {|front|} else {};
  }

  lemma BucketIs(obs: seq<Observation>, k: GroupKey)
    ensures Describes(obs, k, BucketOf(Members(obs, k)))
    ensures Members(obs, k) != [] <==> exists o :: o in obs && o.key == k
  {
    var members := Members(obs, k);
    MembersAre(obs, k);
    if members != [] { assert members[0] in members; }
    var b := BucketOf(members);
    forall a ensures a in b.accounts <==> exists o :: o in obs && o.key == k && o.account == Some(a) {
      assert a in b.accounts <==> exists o :: o in members && o.account == Some(a);
    }
  }

  /** One pass over the observations fills one bucket per physical group. */
  method FillBuckets(obs: seq<Observation>) returns (buckets: map<GroupKey, Bucket>)
    ensures forall k :: k in buckets <==> Members(obs, k) != []
    ensures forall k | k in buckets :: buckets[k] == BucketOf(Members(obs, k))
    ensures forall k :: k in buckets <==> exists o :: o in obs && o.key == k
    ensures forall k | k in buckets :: Describes(obs, k, buckets[k])
  {
    buckets := map[];
    for i := 0 to |obs|
      invariant forall k :: k in buckets <==> Members(obs[..i], k) != []
      invariant forall k | k in buckets :: buckets[k] == BucketOf(Members(obs[..i], k))
    {
      var o := obs[i];
      BucketsGrow(obs, i, buckets);
      buckets := buckets[o.key := AddMember(if o.key in buckets then buckets[o.key] else Bucket([], {}, {}, false), o)];
    }
    assert obs[..|obs|] == obs;
    BucketsDescribe(obs, buckets);
  }

  lemma BucketsDescribe(obs: seq<Observation>, buckets: map<GroupKey, Bucket>)
    requires forall k :: k in buckets <==> Members(obs, k) != []
    requires forall k | k in buckets :: buckets[k] == BucketOf(Members(obs, k))
    ensures forall k :: k in buckets <==> exists o :: o in obs && o.key == k
    ensures forall k | k in buckets :: Describes(obs, k, buckets[k])
  {
    forall k ensures k in buckets <==> exists o :: o in obs && o.key == k { BucketIs(obs, k); }
    forall k | k in buckets ensures Describes(obs, k, buckets[k]) { BucketIs(obs, k); }
  }

  function AddMember(b: Bucket, o: Observation): Bucket {
    Bucket(b.members + [o], if o.account.Some? then b.accounts + {o.account.value} else b.accounts,
           b.resets + {o.resets}, b.modelScoped || o.modelScoped)
  }

  lemma BucketsGrow(obs: seq<Observation>, i: nat, buckets: map<GroupKey, Bucket>)
    requires i < |obs|
    requires forall k :: k in buckets <==> Members(obs[..i], k) != []
    requires forall k | k in buckets :: buckets[k] == BucketOf(Members(obs[..i], k))
    ensures var o := obs[i];
            var b := if o.key in buckets then buckets[o.key] else Bucket([], {}, {}, false);
            && Members(obs[..i + 1], o.key) == Members(obs[..i], o.key) + [o]
            && AddMember(b, o) == BucketOf(Members(obs[..i + 1], o.key))
    ensures forall k | k != obs[i].key :: Members(obs[..i + 1], k) == Members(obs[..i], k)
  {
    assert obs[..i + 1][..i] == obs[..i];
    BucketGrows(Members(obs[..i], obs[i].key), obs[i]);
  }

  lemma BucketGrows(members: seq<Observation>, o: Observation)
    ensures BucketOf(members + [o]) == AddMember(BucketOf(members), o)
    ensures BucketOf([]) == Bucket([], {}, {}, false)
  {
    var all := members + [o];
    assert forall x :: x in all <==> x in members || x == o;
    assert BucketOf(all).accounts == AddMember(BucketOf(members), o).accounts;
    assert BucketOf(all).resets == AddMember(BucketOf(members), o).resets;
    assert BucketOf(all).modelScoped == AddMember(BucketOf(members), o).modelScoped;
  }

  predicate Whole(members: seq<Observation>, since: int, until: int) {
    forall i | 0 <= i < |members| :: since <= members[i].captured < until
  }

  /** Every refusal that applies. */
  function Codes(whole: bool, windowMinutes: nat, modelScoped: bool, native: set<string>, asserted: set<string>,
                 conflicts: set<string>, account: string): set<Code> {
    (if whole then {} else {PartialGroup})
    + (if windowMinutes != WEEKLY_MINUTES then {NotWeekly} else {})
    + (if modelScoped then {ModelScoped} else {})
    + (if native != {} && native != {account} then {NativeConflict} else {})
    + (if asserted != {} && asserted != {account} then {AssertionConflict} else {})
    + (if conflicts != {} then {SpendConflict} else {})
  }

  lemma CodesAre(whole: bool, windowMinutes: nat, modelScoped: bool, native: set<string>, asserted: set<string>,
                 conflicts: set<string>, account: string)
    ensures var codes := Codes(whole, windowMinutes, modelScoped, native, asserted, conflicts, account);
            && (PartialGroup in codes <==> !whole)
            && (NotWeekly in codes <==> windowMinutes != WEEKLY_MINUTES)
            && (ModelScoped in codes <==> modelScoped)
            && (NativeConflict in codes <==> native != {} && native != {account})
            && (AssertionConflict in codes <==> asserted != {} && asserted != {account})
            && (SpendConflict in codes <==> conflicts != {})
  {}

  /** One selected group: refused with every code that applies, already true, or eligible. */
  method PlanGroup(key: GroupKey, bucket: Bucket, owner: Option<string>, rows: seq<Spend>,
                   account: string, since: int, until: int) returns (p: Planned)
    ensures p.key == key && p.observationCount == |bucket.members|
    ensures p.spendCandidates == |UnclaimedIn(rows, key.anchor - key.windowMinutes * 60_000_000, key.anchor)|
    ensures p.native == (if owner.Some? then bucket.accounts - {owner.value} else bucket.accounts)
    ensures p.asserted == (if owner.Some? then {owner.value} else {})
    ensures PartialGroup in p.codes <==>
              exists i :: 0 <= i < |bucket.members| && (bucket.members[i].captured < since || until <= bucket.members[i].captured)
    ensures NotWeekly in p.codes <==> key.windowMinutes != 7 * 24 * 60
    ensures ModelScoped in p.codes <==> bucket.modelScoped
    ensures NativeConflict in p.codes <==> p.native != {} && p.native != {account}
    ensures AssertionConflict in p.codes <==> p.asserted != {} && p.asserted != {account}
    ensures SpendConflict in p.codes <==> Conflicting(rows, key.anchor - key.windowMinutes * 60_000_000, key.anchor, account)
    ensures p.disposition == if p.codes != {} then Refused
                             else if p.native == {account} || p.asserted == {account} then NoOp else Eligible
  {
    var native := if owner.Some? then bucket.accounts - {owner.value} else bucket.accounts;
    var asserted := if owner.Some? then {owner.value} else {};
    var candidates, conflicts := GroupSpend(rows, key.Start(), key.anchor, account);
    var codes := Codes(Whole(bucket.members, since, until), key.windowMinutes, bucket.modelScoped, native, asserted,
                       conflicts, account);
    CodesAre(Whole(bucket.members, since, until), key.windowMinutes, bucket.modelScoped, native, asserted, conflicts, account);
    var disposition := if codes != {} then Refused
                       else if native == {account} || asserted == {account} then NoOp else Eligible;
    p := Planned(key, disposition, codes, native, asserted, |bucket.members|, candidates);
  }

  lemma ConflictExists(rows: seq<Spend>, account: string)
    ensures OtherAccounts(rows, account) != {} <==> exists r :: r in rows && r.account.Some? && r.account.value != account
  {
    if exists r :: r in rows && r.account.Some? && r.account.value != account {
      var r :| r in rows && r.account.Some? && r.account.value != account;
      assert r.account.value in OtherAccounts(rows, account);
    }
  }

  /** A group of observations is whole in at most one of two disjoint ranges, so never eligible twice. */
  lemma NeverWholeTwice(members: seq<Observation>, since: int, until: int, since': int, until': int)
    requires members != [] && (until <= since' || until' <= since)
    ensures !(Whole(members, since, until) && Whole(members, since', until'))
  {
    var o := members[0];
  }

  /** A retraction reaches a record when its nominal window overlaps the range. */
  predicate Reached(key: GroupKey, since: int, until: int) {
    key.Start() < until && since < key.anchor
  }

  /** The tightest range that covers a group runs from one observation to another. */
  lemma {:induction false} TightestRange(members: seq<Observation>) returns (since: int, until: int)
    requires members != []
    ensures Whole(members, since, until)
    ensures (exists o :: o in members && o.captured == since) && exists o :: o in members && o.captured == until - 1
  {
    var last, front := members[|members| - 1], members[..|members| - 1];
    assert last in members && members == front + [last];
    since, until := last.captured, last.captured + 1;
    if front != [] {
      since, until := TightestRange(front);
      since := if last.captured < since then last.captured else since;
      until := if last.captured >= until then last.captured + 1 else until;
    }
  }

  /** Some observation lies before the anchor, and some at or after the nominal start. */
  ghost predicate MeetsItsWindow(members: seq<Observation>, key: GroupKey) {
    && (exists o :: o in members && o.captured < key.anchor)
    && (exists o :: o in members && key.Start() <= o.captured)
  }

  /**
  Exactly when every range that covers a whole group also reaches the record made from it: when the group has
  an observation before its anchor and one, not necessarily the same, at or after its nominal start.
  */
  lemma CoveringRangesReachIff(members: seq<Observation>, key: GroupKey)
    requires members != []
    ensures (forall since, until | Whole(members, since, until) :: Reached(key, since, until)) <==> MeetsItsWindow(members, key)
  {
    if MeetsItsWindow(members, key) {
      var o :| o in members && o.captured < key.anchor;
      var o' :| o' in members && key.Start() <= o'.captured;
    } else {
      var since, until := TightestRange(members);
      assert !Reached(key, since, until);
    }
  }

  /** One observation inside the nominal window is enough. */
  lemma RangeReachesItsRecord(obs: seq<Observation>, k: GroupKey, since: int, until: int, i: nat)
    requires Whole(Members(obs, k), since, until) && i < |obs| && obs[i].key == k
    requires k.Start() <= obs[i].captured < k.anchor
    ensures Reached(k, since, until)
  {
    MemberOf(obs, k, i);
    CoveringRangesReachIff(Members(obs, k), k);
  }

  lemma {:induction false} MemberOf(obs: seq<Observation>, k: GroupKey, i: nat)
    requires i < |obs| && obs[i].key == k
    ensures obs[i] in Members(obs, k)
  {
    if i < |obs| - 1 { MemberOf(obs[..|obs| - 1], k, i); }
  }

  /** A group whose observations all lie at or after its anchor, or all before its start, is missed by some range. */
  lemma RangeMayMissItsRecord(members: seq<Observation>, key: GroupKey)
    requires members != []
    requires (forall o | o in members :: key.anchor <= o.captured) || (forall o | o in members :: o.captured < key.Start())
    ensures exists since, until :: Whole(members, since, until) && !Reached(key, since, until)
  {
    CoveringRangesReachIff(members, key);
  }

  /** Such a group: one observation, captured after its own anchor. */
  lemma LateObservationIsMissed()
    ensures var k := GroupKey("r", "p", "s", WEEKLY_MINUTES, 0);
            var members := [Observation(k, 5, None, "w", false)];
            !MeetsItsWindow(members, k) && Whole(members, 5, 6) && !Reached(k, 5, 6)
  {}

  /** Observations just outside both ends of the nominal window, none inside it: still always reached. */
  lemma StraddlingGroupIsReached(key: GroupKey, members: seq<Observation>)
    requires exists o :: o in members && o.captured < key.Start()
    requires exists o :: o in members && key.anchor <= o.captured
    ensures forall since, until | Whole(members, since, until) :: Reached(key, since, until)
  {
    var o :| o in members && o.captured < key.Start();
    assert key.Start() <= key.anchor;
    CoveringRangesReachIff(members, key);
  }
}
