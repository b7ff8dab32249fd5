/**
Splitting one homogeneous group of decisions into journal lines: the linear batcher, which sizes a line
by arithmetic, against the quadratic greedy rule it must reproduce.

An item and an evidence entry are their canonical JSON text, so two entries are the same marker exactly
when their texts are equal. `enc` is the length of the encoded line of a batch's items and evidence.
*/
module AttributionBatches {
  import opened Wrappers

  datatype Member = Member(item: string, evidence: seq<string>)
  type Chunk = seq<Member>
  type Encoder = (seq<string>, seq<string>) -> nat

  const BATCH_LINE_BUDGET: nat := 48 * 1024
  const EVIDENCE_KEY_LEN := 13

  /******* The record a batch builds *******/

  function Items(chunk: Chunk): (items: seq<string>)
    ensures |items| == |chunk| && forall i | 0 <= i < |chunk| :: items[i] == chunk[i].item
  {
    seq(|chunk|, i requires 0 <= i < |chunk| => chunk[i].item)
  }

  function EvidenceOf(m: Member, agreement: bool): seq<string> { if agreement then m.evidence else [] }

  /** All evidence of a batch, in member order, duplicates included. */
  function Flat(chunk: Chunk, agreement: bool): seq<string> {
    if chunk == [] then [] else Flat(chunk[..|chunk| - 1], agreement) + EvidenceOf(chunk[|chunk| - 1], agreement)
  }

  /** First-seen order, each entry once. */
  function Dedup(s: seq<string>): seq<string> {
    if s == [] then [] else
      var d := Dedup(s[..|s| - 1]);
      if s[|s| - 1] in d then d else d + [s[|s| - 1]]
  }

  function Evidence(chunk: Chunk, agreement: bool): seq<string> { Dedup(Flat(chunk, agreement)) }

  function Length(enc: Encoder, chunk: Chunk, agreement: bool): nat {
    enc(Items(chunk), Evidence(chunk, agreement))
  }

  lemma {:induction false} DedupIsUnion(s: seq<string>)
    ensures forall e :: e in Dedup(s) <==> e in s
    ensures forall i, j | 0 <= i < j < |Dedup(s)| :: Dedup(s)[i] != Dedup(s)[j]
    ensures s == [] <==> Dedup(s) == []
  {
    if s != [] {
      DedupIsUnion(s[..|s| - 1]);
      assert s == s[..|s| - 1] + [s[|s| - 1]];
    }
  }

  lemma DedupOneMore(front: seq<string>, entry: string)
    ensures Dedup(front + [entry]) == if entry in front then Dedup(front) else Dedup(front) + [entry]
    ensures forall e :: e in front + [entry] <==> e in front || e == entry
  {
    DedupIsUnion(front);
    assert (front + [entry])[..|front|] == front;
    assert (front + [entry])[|front|] == entry;
  }

  /** `seen` and `evidence` are the entries of `front`, as a set and in first-seen order. */
  ghost predicate Holds(evidence: seq<string>, seen: set<string>, front: seq<string>) {
    evidence == Dedup(front) && forall e :: e in seen <==> e in front
  }

  lemma HoldsOneMore(evidence: seq<string>, seen: set<string>, all: seq<string>, n: nat)
    requires n < |all| && Holds(evidence, seen, all[..n])
    ensures if all[n] in seen then Holds(evidence, seen, all[..n + 1])
            else Holds(evidence + [all[n]], seen + {all[n]}, all[..n + 1])
  {
    DedupOneMore(all[..n], all[n]);
    assert all[..n + 1] == all[..n] + [all[n]];
  }

  /** One member's entries, each appended when it was not seen before. */
  method AddEntries(evidence: seq<string>, seen: set<string>, entries: seq<string>, ghost front: seq<string>)
    returns (more: seq<string>, moreSeen: set<string>)
    requires Holds(evidence, seen, front)
    ensures Holds(more, moreSeen, front + entries)
  {
    more, moreSeen := evidence, seen;
    ghost var all := front + entries;
    assert all[..|front|] == front;
    for k := 0 to |entries|
      invariant Holds(more, moreSeen, all[..|front| + k])
    {
      HoldsOneMore(more, moreSeen, all, |front| + k);
      assert all[|front| + k] == entries[k];
      if entries[k] !in moreSeen {
        moreSeen := moreSeen + {entries[k]};
        more := more + [entries[k]];
      }
    }
    assert all[..|front| + |entries|] == all;
  }

  /******* What a line carries, entry by entry *******/

  /** Entry `x` of member `a` is `e`. */
  ghost predicate SeenAt(chunk: Chunk, a: nat, x: nat, e: string) {
    a < |chunk| && x < |chunk[a].evidence| && chunk[a].evidence[x] == e
  }

  ghost predicate Seen(chunk: Chunk, e: string) { exists a: nat, x: nat :: SeenAt(chunk, a, x, e) }

  /** Some entry `e` stands before every `f`: in an earlier member, or earlier in the same one. */
  ghost predicate SeenFirst(chunk: Chunk, e: string, f: string) {
    exists a: nat, x: nat :: SeenAt(chunk, a, x, e) && StandsBefore(chunk, a, x, f)
  }

  ghost predicate StandsBefore(chunk: Chunk, a: nat, x: nat, f: string) {
    forall b: nat, y: nat | SeenAt(chunk, b, y, f) :: a < b || (a == b && x < y)
  }

  /** An agreement's line carries the entries of all its members, each once and in first-seen order; another line none. */
  ghost predicate CarriesEvidence(chunk: Chunk, agreement: bool, evidence: seq<string>) {
    && (!agreement ==> evidence == [])
    && (agreement ==> forall e :: e in evidence <==> Seen(chunk, e))
    && (forall i, j | 0 <= i < j < |evidence| :: evidence[i] != evidence[j] && SeenFirst(chunk, evidence[i], evidence[j]))
  }

  function Offset(chunk: Chunk, a: nat): nat
    requires a <= |chunk|
  {
    if a == 0 then 0 else Offset(chunk, a - 1) + |chunk[a - 1].evidence|
  }

  lemma {:induction false} OffsetsGrow(chunk: Chunk, a: nat, b: nat)
    requires a <= b <= |chunk|
    ensures Offset(chunk, a) <= Offset(chunk, b)
  {
    if a < b { OffsetsGrow(chunk, a, b - 1); }
  }

  /** A member's entries stand behind those of the members before it. */
  lemma {:induction false} FlatAt(chunk: Chunk, n: nat, a: nat, x: nat)
    requires a < n <= |chunk| && x < |chunk[a].evidence|
    ensures var s := Flat(chunk[..n], true); |s| == Offset(chunk, n) && Offset(chunk, a) + x < |s| && s[Offset(chunk, a) + x] == chunk[a].evidence[x]
    decreases n
  {
    FlatLength(chunk, n - 1);
    FlatSnoc(chunk, n - 1);
    if a < n - 1 { FlatAt(chunk, n - 1, a, x); }
  }

  lemma FlatSnoc(chunk: Chunk, n: nat)
    requires n < |chunk|
    ensures Flat(chunk[..n + 1], true) == Flat(chunk[..n], true) + chunk[n].evidence
  {
    assert chunk[..n + 1][..n] == chunk[..n];
  }

  lemma {:induction false} FlatLength(chunk: Chunk, n: nat)
    requires n <= |chunk|
    ensures |Flat(chunk[..n], true)| == Offset(chunk, n)
  {
    if n > 0 {
      FlatLength(chunk, n - 1);
      FlatSnoc(chunk, n - 1);
    }
  }

  /** Every entry of the flat list is some member's. */
  lemma {:induction false} FlatFrom(chunk: Chunk, n: nat, p: nat) returns (a: nat, x: nat)
    requires n <= |chunk| && p < |Flat(chunk[..n], true)|
    ensures a < n && x < |chunk[a].evidence| && p == Offset(chunk, a) + x && chunk[a].evidence[x] == Flat(chunk[..n], true)[p]
  {
    if n > 0 {
      FlatLength(chunk, n - 1);
      FlatSnoc(chunk, n - 1);
      if p < |Flat(chunk[..n - 1], true)| {
        a, x := FlatFrom(chunk, n - 1, p);
      } else {
        a, x := n - 1, p - Offset(chunk, n - 1);
      }
    }
  }

  ghost predicate Precedes(s: seq<string>, p: nat, f: string) { forall q | 0 <= q < |s| && s[q] == f :: p < q }

  /** Of two distinct entries the one seen first comes first. */
  lemma {:induction false} DedupKeepsOrder(s: seq<string>, i: nat, j: nat) returns (p: nat)
    requires i < j < |Dedup(s)|
    ensures p < |s| && s[p] == Dedup(s)[i] && Precedes(s, p, Dedup(s)[j])
  {
    var front, last := s[..|s| - 1], s[|s| - 1];
    DedupIsUnion(front);
    DedupIsUnion(s);
    if j < |Dedup(front)| {
      p := DedupKeepsOrder(front, i, j);
    } else {
      assert Dedup(s)[i] in front;
      p :| p < |front| && front[p] == Dedup(s)[i];
      forall q | 0 <= q < |front| ensures s[q] != Dedup(s)[j] {
        assert front[q] in front;
      }
    }
  }

  lemma EvidenceIs(chunk: Chunk, agreement: bool)
    ensures CarriesEvidence(chunk, agreement, Evidence(chunk, agreement))
  {
    if agreement {
      assert chunk[..|chunk|] == chunk;
      DedupIsUnion(Flat(chunk, true));
      EvidenceIsSeen(chunk);
      var evidence := Evidence(chunk, true);
      forall i, j | 0 <= i < j < |evidence| ensures SeenFirst(chunk, evidence[i], evidence[j]) {
        EvidenceInOrder(chunk, i, j);
      }
    } else {
      NoEvidence(chunk);
    }
  }

  lemma EvidenceIsSeen(chunk: Chunk)
    ensures forall e :: e in Evidence(chunk, true) <==> Seen(chunk, e)
  {
    assert chunk[..|chunk|] == chunk;
    var s := Flat(chunk, true);
    DedupIsUnion(s);
    forall e | e in s ensures Seen(chunk, e) {
      var p :| 0 <= p < |s| && s[p] == e;
      var a, x := FlatFrom(chunk, |chunk|, p);
      assert SeenAt(chunk, a, x, e);
    }
    forall e | Seen(chunk, e) ensures e in s {
      var a: nat, x: nat :| SeenAt(chunk, a, x, e);
      FlatAt(chunk, |chunk|, a, x);
    }
  }

  lemma EvidenceInOrder(chunk: Chunk, i: nat, j: nat)
    requires i < j < |Evidence(chunk, true)|
    ensures SeenFirst(chunk, Evidence(chunk, true)[i], Evidence(chunk, true)[j])
  {
    assert chunk[..|chunk|] == chunk;
    var s, e, f := Flat(chunk, true), Evidence(chunk, true)[i], Evidence(chunk, true)[j];
    var p := DedupKeepsOrder(s, i, j);
    var a, x := FlatFrom(chunk, |chunk|, p);
    forall b: nat, y: nat | SeenAt(chunk, b, y, f) ensures a < b || (a == b && x < y) {
      FlatAt(chunk, |chunk|, b, y);
      assert p < Offset(chunk, b) + y;
      if b < a { OffsetsGrow(chunk, b + 1, a); }
    }
    assert SeenAt(chunk, a, x, e) && StandsBefore(chunk, a, x, f);
  }

  lemma {:induction false} NoEvidence(chunk: Chunk)
    ensures Flat(chunk, false) == []
  {
    if chunk != [] { NoEvidence(chunk[..|chunk| - 1]); }
  }

  /** The first-seen union a batch carries, built entry by entry. */
  method BuildEvidence(chunk: Chunk, agreement: bool) returns (evidence: seq<string>)
    ensures evidence == Evidence(chunk, agreement)
    ensures CarriesEvidence(chunk, agreement, evidence)
  {
    evidence := [];
    var seen: set<string> := {};
    for i := 0 to |chunk|
      invariant Holds(evidence, seen, Flat(chunk[..i], agreement))
    {
      evidence, seen := AddEntries(evidence, seen, EvidenceOf(chunk[i], agreement), Flat(chunk[..i], agreement));
      assert chunk[..i + 1][..i] == chunk[..i];
    }
    assert chunk[..|chunk|] == chunk;
    EvidenceIs(chunk, agreement);
  }

  /******* The greedy rule *******/

  predicate Fits(enc: Encoder, agreement: bool, chunk: Chunk) {
    Length(enc, chunk, agreement) <= BATCH_LINE_BUDGET
  }

  /** Members in order; one that would take the line over the budget starts the next batch. */
  function Greedy(enc: Encoder, agreement: bool, chunk: Chunk, rest: Chunk): seq<Chunk>
    decreases |rest|
  {
    if rest == [] then if chunk == [] then [] else [chunk]
    else if chunk == [] || Fits(enc, agreement, chunk + [rest[0]]) then Greedy(enc, agreement, chunk + [rest[0]], rest[1..])
    else [chunk] + Greedy(enc, agreement, [rest[0]], rest[1..])
  }

  ghost predicate PrefixFits(enc: Encoder, agreement: bool, chunk: Chunk, k: nat)
    requires k <= |chunk|
  {
    Fits(enc, agreement, chunk[..k])
  }

  /** The batch fits at every prefix from its second member on. */
  ghost predicate FitsAsItGrows(enc: Encoder, agreement: bool, chunk: Chunk) {
    forall k | 2 <= k <= |chunk| :: PrefixFits(enc, agreement, chunk, k)
  }

  function Concat(batches: seq<Chunk>): Chunk {
    if batches == [] then [] else batches[0] + Concat(batches[1..])
  }

  /**
  The rule without an algorithm: a partition in order, of nonempty batches, in which every batch fits
  from its second member on at every prefix, and none could have taken the next batch's first member.
  */
  ghost predicate IsGreedyPartition(enc: Encoder, agreement: bool, members: Chunk, out: seq<Chunk>) {
    && Concat(out) == members
    && (forall i | 0 <= i < |out| :: out[i] != [])
    && (forall i | 0 <= i < |out| :: FitsAsItGrows(enc, agreement, out[i]))
    && forall i | 0 < i < |out| :: !Fits(enc, agreement, out[i - 1] + [out[i][0]])
  }

  /** No line is over the budget unless it holds a lone member. */
  ghost predicate WithinBudget(enc: Encoder, agreement: bool, out: seq<Chunk>) {
    forall i | 0 <= i < |out| :: |out[i]| == 1 || Fits(enc, agreement, out[i])
  }

  lemma {:induction false} GreedyIsGreedy(enc: Encoder, agreement: bool, chunk: Chunk, rest: Chunk)
    requires FitsAsItGrows(enc, agreement, chunk)
    ensures IsGreedyPartition(enc, agreement, chunk + rest, Greedy(enc, agreement, chunk, rest))
    decreases |rest|
  {
    if rest == [] {
      LastBatch(enc, agreement, chunk);
      assert chunk + rest == chunk;
    } else if chunk == [] || Fits(enc, agreement, chunk + [rest[0]]) {
      PrefixesFit(enc, agreement, chunk, rest[0]);
      GreedyIsGreedy(enc, agreement, chunk + [rest[0]], rest[1..]);
      assert chunk + [rest[0]] + rest[1..] == chunk + rest;
    } else {
      GreedyIsGreedy(enc, agreement, [rest[0]], rest[1..]);
      GreedyExtends(enc, agreement, [rest[0]], rest[1..]);
      assert [rest[0]] + rest[1..] == rest;
      BatchBefore(enc, agreement, chunk, rest, Greedy(enc, agreement, [rest[0]], rest[1..]));
    }
  }

  /** The first batch keeps what it already held. */
  lemma {:induction false} GreedyExtends(enc: Encoder, agreement: bool, chunk: Chunk, rest: Chunk)
    requires chunk != []
    ensures var out := Greedy(enc, agreement, chunk, rest); out != [] && chunk <= out[0]
    decreases |rest|
  {
    if rest != [] && Fits(enc, agreement, chunk + [rest[0]]) {
      GreedyExtends(enc, agreement, chunk + [rest[0]], rest[1..]);
    }
  }

  lemma LastBatch(enc: Encoder, agreement: bool, chunk: Chunk)
    requires FitsAsItGrows(enc, agreement, chunk)
    ensures IsGreedyPartition(enc, agreement, chunk, if chunk == [] then [] else [chunk])
  {
    if chunk != [] {
      assert Concat([chunk]) == chunk + Concat([chunk][1..]) && [chunk][1..] == [];
    }
  }

  lemma PrefixesFit(enc: Encoder, agreement: bool, chunk: Chunk, m: Member)
    requires FitsAsItGrows(enc, agreement, chunk)
    requires chunk == [] || Fits(enc, agreement, chunk + [m])
    ensures FitsAsItGrows(enc, agreement, chunk + [m])
  {
    var grown := chunk + [m];
    forall k | 2 <= k <= |grown| ensures PrefixFits(enc, agreement, grown, k) {
      assert k <= |chunk| ==> PrefixFits(enc, agreement, chunk, k);
      assert grown[..k] == if k == |grown| then grown else chunk[..k];
    }
  }

  /** A full batch in front of a greedy partition whose first member it could not take. */
  lemma BatchBefore(enc: Encoder, agreement: bool, chunk: Chunk, rest: Chunk, tail: seq<Chunk>)
    requires chunk != [] && FitsAsItGrows(enc, agreement, chunk)
    requires IsGreedyPartition(enc, agreement, rest, tail) && tail != []
    requires !Fits(enc, agreement, chunk + [tail[0][0]])
    ensures IsGreedyPartition(enc, agreement, chunk + rest, [chunk] + tail)
  {
    var out := [chunk] + tail;
    assert out[1..] == tail;
    forall i | 0 < i < |out| ensures !Fits(enc, agreement, out[i - 1] + [out[i][0]]) {
      assert out[i] == tail[i - 1];
      assert i > 1 ==> out[i - 1] == tail[i - 2];
    }
  }

  /** The rule leaves no choice. */
  lemma {:induction false} GreedyPartitionIsUnique(enc: Encoder, agreement: bool, members: Chunk, a: seq<Chunk>, b: seq<Chunk>)
    requires IsGreedyPartition(enc, agreement, members, a) && IsGreedyPartition(enc, agreement, members, b)
    ensures a == b
    decreases |a|
  {
    EmptyPartition(enc, agreement, members, a);
    EmptyPartition(enc, agreement, members, b);
    if a != [] {
      FirstBatch(enc, agreement, members, a);
      FirstBatch(enc, agreement, members, b);
      Rest(enc, agreement, members, a);
      Rest(enc, agreement, members, b);
      GreedyPartitionIsUnique(enc, agreement, members[|a[0]|..], a[1..], b[1..]);
      assert a == [a[0]] + a[1..] && b == [b[0]] + b[1..];
    }
  }

  lemma EmptyPartition(enc: Encoder, agreement: bool, members: Chunk, a: seq<Chunk>)
    requires IsGreedyPartition(enc, agreement, members, a)
    ensures a == [] <==> members == []
  {
    if a != [] { assert Concat(a)[0] == a[0][0]; }
  }

  lemma Rest(enc: Encoder, agreement: bool, members: Chunk, a: seq<Chunk>)
    requires IsGreedyPartition(enc, agreement, members, a) && a != []
    ensures IsGreedyPartition(enc, agreement, members[|a[0]|..], a[1..])
  {
    assert members[|a[0]|..] == Concat(a[1..]);
    forall i | 0 < i < |a[1..]| ensures !Fits(enc, agreement, a[1..][i - 1] + [a[1..][i][0]]) {
      assert a[1..][i - 1] == a[i] && a[1..][i] == a[i + 1];
    }
  }

  /** The first batch is the longest prefix that fits at every step from its second member on. */
  lemma FirstBatch(enc: Encoder, agreement: bool, members: Chunk, a: seq<Chunk>)
    requires IsGreedyPartition(enc, agreement, members, a) && a != []
    ensures |a[0]| <= |members| && a[0] == members[..|a[0]|]
    ensures forall k | 2 <= k <= |a[0]| :: PrefixFits(enc, agreement, members, k)
    ensures |a[0]| < |members| ==> !PrefixFits(enc, agreement, members, |a[0]| + 1)
  {
    var n := |a[0]|;
    assert members == a[0] + Concat(a[1..]);
    forall k | 2 <= k <= n ensures PrefixFits(enc, agreement, members, k) {
      assert PrefixFits(enc, agreement, a[0], k) && members[..k] == a[0][..k];
    }
    if n < |members| {
      SecondBatchOpens(enc, agreement, members, a);
    }
  }

  lemma SecondBatchOpens(enc: Encoder, agreement: bool, members: Chunk, a: seq<Chunk>)
    requires IsGreedyPartition(enc, agreement, members, a) && a != [] && |a[0]| < |members|
    ensures !PrefixFits(enc, agreement, members, |a[0]| + 1)
  {
    var rest := a[1..];
    assert members == a[0] + Concat(rest);
    assert rest[0] == a[1] && Concat(rest) == a[1] + Concat(rest[1..]);
    FirstOfBoth(a[0], a[1], Concat(rest[1..]));
    assert !Fits(enc, agreement, a[1 - 1] + [a[1][0]]);
  }

  lemma FirstOfBoth(a: Chunk, b: Chunk, c: Chunk)
    requires b != []
    ensures (a + (b + c))[..|a| + 1] == a + [b[0]]
  {}

  /******* The additive encoding *******/

  function SumLen(entries: seq<string>): nat {
    if entries == [] then 0 else SumLen(entries[..|entries| - 1]) + |entries[|entries| - 1]| + 1
  }

  /** What one more item, with the entries it adds, does to the length of a nonempty line. */
  ghost predicate Additive(enc: Encoder) {
    forall items: seq<string>, item: string, evidence: seq<string>, added: seq<string> | items != [] ::
      enc(items + [item], evidence + added)
      == enc(items, evidence) + |item| + 1 + SumLen(added) + if added != [] && evidence == [] then EVIDENCE_KEY_LEN else 0
  }

  function JsonElements(xs: seq<string>): string {
    if xs == [] then "" else if |xs| == 1 then xs[0] else JsonElements(xs[..|xs| - 1]) + "," + xs[|xs| - 1]
  }

  function JsonList(xs: seq<string>): string { "[" + JsonElements(xs) + "]" }

  /** A journal line around its item list; the evidence key is absent when there is none. */
  function LineText(pre: string, mid: string, post: string, items: seq<string>, evidence: seq<string>): string {
    pre + JsonList(items) + mid + (if evidence == [] then "" else ",\"evidence\":" + JsonList(evidence)) + post
  }

  lemma {:induction false} JsonListLength(xs: seq<string>)
    ensures |JsonList(xs)| == if xs == [] then 2 else SumLen(xs) + 1
  {
    if xs != [] {
      if |xs| == 1 {
        assert SumLen(xs) == SumLen(xs[..0]) + |xs[0]| + 1;
      } else {
        JsonListLength(xs[..|xs| - 1]);
      }
    }
  }

  lemma {:induction false} SumLenConcat(a: seq<string>, b: seq<string>)
    ensures SumLen(a + b) == SumLen(a) + SumLen(b)
  {
    if b == [] {
      assert a + b == a;
    } else {
      SumLenConcat(a, b[..|b| - 1]);
      assert (a + b)[..|a + b| - 1] == a + b[..|b| - 1];
    }
  }

  /** The length of a journal line of a group, around its items and evidence. */
  function LineLength(pre: string, mid: string, post: string): Encoder {
    (items: seq<string>, evidence: seq<string>) => |LineText(pre, mid, post, items, evidence)|
  }

  /** A line's length: its fixed parts, its items each with a comma or bracket, and its evidence likewise under its key. */
  lemma LineLengthIs(pre: string, mid: string, post: string, items: seq<string>, evidence: seq<string>)
    ensures LineLength(pre, mid, post)(items, evidence)
         == |pre| + |mid| + |post| + (if items == [] then 2 else SumLen(items) + 1)
            + if evidence == [] then 0 else |",\"evidence\":"| + SumLen(evidence) + 1
  {
    JsonListLength(items);
    JsonListLength(evidence);
  }

  /** Canonical JSON text is additive, with the evidence key's exact cost. */
  lemma JsonIsAdditive(pre: string, mid: string, post: string)
    ensures Additive(LineLength(pre, mid, post))
  {
    var enc := LineLength(pre, mid, post);
    forall items: seq<string>, item: string, evidence: seq<string>, added: seq<string> | items != []
      ensures enc(items + [item], evidence + added)
              == enc(items, evidence) + |item| + 1 + SumLen(added) + if added != [] && evidence == [] then EVIDENCE_KEY_LEN else 0
    {
      LineGrows(pre, mid, post, items, item, evidence, added);
    }
  }

  lemma LineGrows(pre: string, mid: string, post: string, items: seq<string>, item: string,
                  evidence: seq<string>, added: seq<string>)
    requires items != []
    ensures |LineText(pre, mid, post, items + [item], evidence + added)|
            == |LineText(pre, mid, post, items, evidence)| + |item| + 1 + SumLen(added)
               + if added != [] && evidence == [] then EVIDENCE_KEY_LEN else 0
  {
    JsonListLength(items);
    JsonListLength(items + [item]);
    SumLenConcat(items, [item]);
    JsonListLength(evidence);
    JsonListLength(evidence + added);
    SumLenConcat(evidence, added);
    assert [item][..0] == [];
    assert SumLen([item]) == |item| + 1;
    if added == [] { assert evidence + added == evidence; }
  }

  /******* The two batchers *******/

  /** `added` and `addedSeen` are the entries of `done` that `front` does not hold, in first-seen order. */
  ghost predicate Adds(front: seq<string>, done: seq<string>, seen: set<string>, added: seq<string>, addedSeen: set<string>) {
    && Dedup(front + done) == Dedup(front) + added
    && forall e :: e in seen + addedSeen <==> e in front + done
  }

  lemma AddsOneMore(front: seq<string>, done: seq<string>, entry: string, seen: set<string>, added: seq<string>, addedSeen: set<string>)
    requires Adds(front, done, seen, added, addedSeen)
    ensures if entry in seen + addedSeen then Adds(front, done + [entry], seen, added, addedSeen)
            else Adds(front, done + [entry], seen, added + [entry], addedSeen + {entry})
  {
    assert front + (done + [entry]) == front + done + [entry];
    DedupGrows(front + done, Dedup(front), added, entry);
  }

  lemma DedupGrows(all: seq<string>, base: seq<string>, added: seq<string>, entry: string)
    requires Dedup(all) == base + added
    ensures Dedup(all + [entry]) == if entry in all then base + added else base + (added + [entry])
    ensures forall e :: e in all + [entry] <==> e in all || e == entry
  {
    DedupOneMore(all, entry);
  }

  /** The entries a member adds to what the batch has already seen. */
  method FreshEntries(entries: seq<string>, seen: set<string>, ghost front: seq<string>)
    returns (added: seq<string>, addedSeen: set<string>)
    requires forall e :: e in seen <==> e in front
    ensures Dedup(front + entries) == Dedup(front) + added
    ensures forall e :: e in seen + addedSeen <==> e in front + entries
  {
    added, addedSeen := [], {};
    assert front + entries[..0] == front;
    for k := 0 to |entries|
      invariant Adds(front, entries[..k], seen, added, addedSeen)
    {
      AddsOneMore(front, entries[..k], entries[k], seen, added, addedSeen);
      assert entries[..k + 1] == entries[..k] + [entries[k]];
      if entries[k] !in seen && entries[k] !in addedSeen {
        addedSeen := addedSeen + {entries[k]};
        added := added + [entries[k]];
      }
    }
    assert entries[..|entries|] == entries;
  }

  /** The length a chunk is predicted to have with one more member. */
  method GrownLength(length: nat, item: string, added: seq<string>, sawNone: bool) returns (grown: nat)
    ensures grown == length + |item| + 1 + SumLen(added) + if added != [] && sawNone then EVIDENCE_KEY_LEN else 0
  {
    grown := length + |item| + 1;
    if added != [] {
      for k := 0 to |added|
        invariant grown == length + |item| + 1 + SumLen(added[..k])
      {
        assert added[..k + 1][..k] == added[..k];
        grown := grown + |added[k]| + 1;
      }
      assert added[..|added|] == added;
      if sawNone {
        grown := grown + EVIDENCE_KEY_LEN;
      }
    }
  }

  /** What the batcher knows after `i` members: the finished batches, and the chunk it is growing. */
  ghost predicate Growing(enc: Encoder, agreement: bool, members: Chunk, i: nat, out: seq<Chunk>, chunk: Chunk,
                          seen: set<string>, length: nat)
    requires i <= |members|
  {
    && Concat(out) + chunk == members[..i]
    && WithinBudget(enc, agreement, out)
    && (chunk == [] <==> i == 0)
    && (chunk != [] ==> forall e :: e in seen <==> e in Flat(chunk, agreement))
  }

  /** The chunk's predicted length is real, and the greedy rule would be exactly here too. */
  ghost predicate Exact(enc: Encoder, agreement: bool, members: Chunk, i: nat, out: seq<Chunk>, chunk: Chunk, length: nat)
    requires i <= |members|
  {
    && (chunk != [] ==> length == Length(enc, chunk, agreement))
    && (|chunk| > 1 ==> Fits(enc, agreement, chunk))
    && Greedy(enc, agreement, [], members) == out + Greedy(enc, agreement, chunk, members[i..])
  }

  /** Size the chunk with one more member, without building it. */
  method Predict(enc: Encoder, agreement: bool, chunk: Chunk, seen: set<string>, length: nat, member: Member, ghost exact: bool)
    returns (grown: nat, addedSeen: set<string>)
    requires chunk != [] && forall e :: e in seen <==> e in Flat(chunk, agreement)
    requires exact ==> Additive(enc) && length == Length(enc, chunk, agreement)
    ensures forall e :: e in seen + addedSeen <==> e in Flat(chunk, agreement) + EvidenceOf(member, agreement)
    ensures exact ==> grown == Length(enc, chunk + [member], agreement)
  {
    var added;
    added, addedSeen := FreshEntries(EvidenceOf(member, agreement), seen, Flat(chunk, agreement));
    grown := GrownLength(length, member.item, added, seen == {});
    if exact {
      GrownIs(enc, agreement, chunk, member, added, length, seen, grown);
    }
  }

  /** Whether the built line is what was predicted, and within the budget unless it holds a lone member. */
  method Emit(enc: Encoder, agreement: bool, chunk: Chunk, length: nat) returns (ok: bool)
    ensures ok <==> Length(enc, chunk, agreement) == length && (|chunk| > 1 ==> Fits(enc, agreement, chunk))
  {
    var evidence := BuildEvidence(chunk, agreement);
    var actual := enc(Items(chunk), evidence);
    ok := !(actual != length || (|chunk| > 1 && actual > BATCH_LINE_BUDGET));
  }

  datatype Progress = Progress(out: seq<Chunk>, chunk: Chunk, seen: set<string>, length: nat)

  /** Take one member into the growing chunk, or emit the chunk and start the next with it. */
  method Take(members: Chunk, i: nat, agreement: bool, enc: Encoder, p: Progress, ghost exact: bool)
    returns (next: Option<Progress>)
    requires i < |members| && Growing(enc, agreement, members, i, p.out, p.chunk, p.seen, p.length)
    requires exact ==> Additive(enc) && Exact(enc, agreement, members, i, p.out, p.chunk, p.length)
    ensures next.Some? ==>
              var q := next.value; Growing(enc, agreement, members, i + 1, q.out, q.chunk, q.seen, q.length)
    ensures exact ==> next.Some?
                      && var q := next.value; Exact(enc, agreement, members, i + 1, q.out, q.chunk, q.length)
  {
    var member, out := members[i], p.out;
    if p.chunk != [] {
      var grown, addedSeen := Predict(enc, agreement, p.chunk, p.seen, p.length, member, exact);
      if grown <= BATCH_LINE_BUDGET {
        Joins(enc, agreement, members, i, out, p.chunk, p.seen, p.length, addedSeen, grown);
        if exact { JoinsExact(enc, agreement, members, i, out, p.chunk, p.length, grown); }
        return Some(Progress(out, p.chunk + [member], p.seen + addedSeen, grown));
      }
      var ok := Emit(enc, agreement, p.chunk, p.length);
      if !ok {
        return None;
      }
      Splits(enc, agreement, members, i, out, p.chunk, p.seen, p.length);
      if exact { SplitsExact(enc, agreement, members, i, out, p.chunk, p.length); }
      out := out + [p.chunk];
    } else {
      Starts(enc, agreement, members, out, p.seen, p.length);
    }
    next := Some(Progress(out, [member], (set e | e in EvidenceOf(member, agreement)), Length(enc, [member], agreement)));
  }

  /**
  One pass over the members, each joining the open batch or closing it, with lengths added up and checked
  against the encoder only when a batch closes. A batch whose check fails is given up, with all the others.
  */
  method LinearBatches(members: Chunk, agreement: bool, enc: Encoder, ghost exact: bool) returns (result: Option<seq<Chunk>>)
    requires exact ==> Additive(enc)
    ensures exact ==> result == Some(Greedy(enc, agreement, [], members))
    ensures result.Some? ==> Concat(result.value) == members && WithinBudget(enc, agreement, result.value)
  {
    var p := Progress([], [], {}, 0);
    assert members[0..] == members;
    for i := 0 to |members|
      invariant Growing(enc, agreement, members, i, p.out, p.chunk, p.seen, p.length)
      invariant exact ==> Exact(enc, agreement, members, i, p.out, p.chunk, p.length)
    {
      var next := Take(members, i, agreement, enc, p, exact);
      if next.None? {
        return None;
      }
      p := next.value;
    }
    if p.chunk == [] {
      Finished(enc, agreement, members, p.out, p.chunk, p.seen, p.length);
      return Some(p.out);
    }
    var ok := Emit(enc, agreement, p.chunk, p.length);
    if !ok {
      return None;
    }
    Finished(enc, agreement, members, p.out, p.chunk, p.seen, p.length);
    result := Some(p.out + [p.chunk]);
  }

  lemma Finished(enc: Encoder, agreement: bool, members: Chunk, out: seq<Chunk>, chunk: Chunk, seen: set<string>, length: nat)
    requires Growing(enc, agreement, members, |members|, out, chunk, seen, length)
    requires |chunk| > 1 ==> Fits(enc, agreement, chunk)
    ensures var all := if chunk == [] then out else out + [chunk];
            && Concat(all) == members && WithinBudget(enc, agreement, all)
            && (Exact(enc, agreement, members, |members|, out, chunk, length) ==> all == Greedy(enc, agreement, [], members))
  {
    ConcatSnoc(out, chunk);
    assert members[..|members|] == members;
    assert members[|members|..] == [];
  }

  lemma Joins(enc: Encoder, agreement: bool, members: Chunk, i: nat, out: seq<Chunk>, chunk: Chunk,
              seen: set<string>, length: nat, addedSeen: set<string>, grown: nat)
    requires i < |members| && Growing(enc, agreement, members, i, out, chunk, seen, length) && chunk != []
    requires forall e :: e in seen + addedSeen <==> e in Flat(chunk, agreement) + EvidenceOf(members[i], agreement)
    ensures Growing(enc, agreement, members, i + 1, out, chunk + [members[i]], seen + addedSeen, grown)
  {
    FlatGrows(chunk, members[i], agreement);
    NextInOrder(members, i, Concat(out), chunk);
  }

  lemma NextInOrder(members: Chunk, i: nat, done: Chunk, chunk: Chunk)
    requires i < |members| && done + chunk == members[..i]
    ensures done + (chunk + [members[i]]) == members[..i + 1]
  {
    assert done + (chunk + [members[i]]) == (done + chunk) + [members[i]];
  }

  lemma JoinsExact(enc: Encoder, agreement: bool, members: Chunk, i: nat, out: seq<Chunk>, chunk: Chunk, length: nat, grown: nat)
    requires i < |members| && Exact(enc, agreement, members, i, out, chunk, length) && chunk != []
    requires grown == Length(enc, chunk + [members[i]], agreement) && grown <= BATCH_LINE_BUDGET
    ensures Exact(enc, agreement, members, i + 1, out, chunk + [members[i]], grown)
  {
    assert members[i..][0] == members[i] && members[i..][1..] == members[i + 1..];
    assert Fits(enc, agreement, chunk + [members[i..][0]]);
  }

  lemma Splits(enc: Encoder, agreement: bool, members: Chunk, i: nat, out: seq<Chunk>, chunk: Chunk,
               seen: set<string>, length: nat)
    requires i < |members| && Growing(enc, agreement, members, i, out, chunk, seen, length) && chunk != []
    requires |chunk| > 1 ==> Fits(enc, agreement, chunk)
    ensures Growing(enc, agreement, members, i + 1, out + [chunk], [members[i]],
                    (set e | e in EvidenceOf(members[i], agreement)), Length(enc, [members[i]], agreement))
  {
    FlatOne(members[i], agreement);
    ClosedInOrder(members, i, out, chunk);
    ClosedWithinBudget(enc, agreement, out, chunk);
  }

  lemma ClosedInOrder(members: Chunk, i: nat, out: seq<Chunk>, chunk: Chunk)
    requires i < |members| && Concat(out) + chunk == members[..i]
    ensures Concat(out + [chunk]) + [members[i]] == members[..i + 1]
  {
    ConcatSnoc(out, chunk);
  }

  lemma ClosedWithinBudget(enc: Encoder, agreement: bool, out: seq<Chunk>, chunk: Chunk)
    requires WithinBudget(enc, agreement, out) && chunk != [] && (|chunk| > 1 ==> Fits(enc, agreement, chunk))
    ensures WithinBudget(enc, agreement, out + [chunk])
  {}

  lemma SplitsExact(enc: Encoder, agreement: bool, members: Chunk, i: nat, out: seq<Chunk>, chunk: Chunk, length: nat)
    requires i < |members| && Exact(enc, agreement, members, i, out, chunk, length) && chunk != []
    requires !Fits(enc, agreement, chunk + [members[i]])
    ensures Exact(enc, agreement, members, i + 1, out + [chunk], [members[i]], Length(enc, [members[i]], agreement))
  {
    RestFrom(members, i);
    GreedySplits(enc, agreement, chunk, members[i..]);
    Regroup(Greedy(enc, agreement, [], members), out, chunk, Greedy(enc, agreement, chunk, members[i..]),
            Greedy(enc, agreement, [members[i]], members[i + 1..]));
  }

  lemma RestFrom(members: Chunk, i: nat)
    requires i < |members|
    ensures members[i..] != [] && members[i..][0] == members[i] && members[i..][1..] == members[i + 1..]
  {}

  lemma Regroup(all: seq<Chunk>, out: seq<Chunk>, chunk: Chunk, rest: seq<Chunk>, tail: seq<Chunk>)
    requires all == out + rest && rest == [chunk] + tail
    ensures all == out + [chunk] + tail
  {}

  lemma GreedySplits(enc: Encoder, agreement: bool, chunk: Chunk, rest: Chunk)
    requires rest != [] && chunk != [] && !Fits(enc, agreement, chunk + [rest[0]])
    ensures Greedy(enc, agreement, chunk, rest) == [chunk] + Greedy(enc, agreement, [rest[0]], rest[1..])
  {}

  lemma Starts(enc: Encoder, agreement: bool, members: Chunk, out: seq<Chunk>, seen: set<string>, length: nat)
    requires members != [] && Growing(enc, agreement, members, 0, out, [], seen, length)
    ensures Growing(enc, agreement, members, 1, out, [members[0]],
                    (set e | e in EvidenceOf(members[0], agreement)), Length(enc, [members[0]], agreement))
    ensures Exact(enc, agreement, members, 0, out, [], length)
            ==> Exact(enc, agreement, members, 1, out, [members[0]], Length(enc, [members[0]], agreement))
  {
    FlatOne(members[0], agreement);
    assert Concat(out) == Concat(out) + [] == members[..0] == [];
    assert members[0..] == members;
    assert [] + [members[0]] == [members[0]];
  }

  lemma FlatOne(m: Member, agreement: bool)
    ensures Flat([m], agreement) == EvidenceOf(m, agreement)
  {
    assert Flat([m], agreement) == Flat([m][..0], agreement) + EvidenceOf(m, agreement);
  }

  lemma FlatGrows(chunk: Chunk, m: Member, agreement: bool)
    ensures Flat(chunk + [m], agreement) == Flat(chunk, agreement) + EvidenceOf(m, agreement)
    ensures Items(chunk + [m]) == Items(chunk) + [m.item]
  {
    assert (chunk + [m])[..|chunk|] == chunk;
  }

  /** Under an additive encoding the predicted length is the real one. */
  lemma GrownIs(enc: Encoder, agreement: bool, chunk: Chunk, m: Member, added: seq<string>, length: nat,
                seen: set<string>, grown: nat)
    requires Additive(enc) && chunk != [] && length == Length(enc, chunk, agreement)
    requires Dedup(Flat(chunk, agreement) + EvidenceOf(m, agreement)) == Evidence(chunk, agreement) + added
    requires forall e :: e in seen <==> e in Flat(chunk, agreement)
    requires grown == length + |m.item| + 1 + SumLen(added) + if added != [] && seen == {} then EVIDENCE_KEY_LEN else 0
    ensures grown == Length(enc, chunk + [m], agreement)
  {
    FlatGrows(chunk, m, agreement);
    DedupIsUnion(Flat(chunk, agreement));
    SeenNothing(seen, Flat(chunk, agreement));
    var items, item, evidence := Items(chunk), m.item, Evidence(chunk, agreement);
    assert enc(items + [item], evidence + added)
        == enc(items, evidence) + |item| + 1 + SumLen(added) + if added != [] && evidence == [] then EVIDENCE_KEY_LEN else 0;
  }

  lemma SeenNothing(seen: set<string>, front: seq<string>)
    requires forall e :: e in seen <==> e in front
    ensures seen == {} <==> front == []
  {
    if front != [] { assert front[0] in seen; }
  }

  lemma {:induction false} ConcatSnoc(out: seq<Chunk>, chunk: Chunk)
    ensures Concat(out + [chunk]) == Concat(out) + chunk
  {
    if out == [] {
      assert Concat([chunk]) == chunk + Concat([]);
    } else {
      ConcatSnoc(out[1..], chunk);
      assert (out + [chunk])[1..] == out[1..] + [chunk];
    }
  }

  /** What the greedy rule does with the next member, in front of which `out` is already emitted. */
  lemma GreedyTakes(enc: Encoder, agreement: bool, out: seq<Chunk>, chunk: Chunk, m: Member, rest: Chunk)
    ensures out + Greedy(enc, agreement, chunk, [m] + rest) ==
              if |chunk + [m]| > 1 && Length(enc, chunk + [m], agreement) > BATCH_LINE_BUDGET
              then out + [chunk] + Greedy(enc, agreement, [m], rest) else out + Greedy(enc, agreement, chunk + [m], rest)
  {
    assert ([m] + rest)[0] == m && ([m] + rest)[1..] == rest;
    assert out + [chunk] + Greedy(enc, agreement, [m], rest) == out + ([chunk] + Greedy(enc, agreement, [m], rest));
  }

  /** The exact greedy partition, rebuilding the growing batch per member. */
  method GreedyBatches(members: Chunk, agreement: bool, enc: Encoder) returns (out: seq<Chunk>)
    ensures out == Greedy(enc, agreement, [], members)
    ensures Concat(out) == members && WithinBudget(enc, agreement, out)
  {
    out := [];
    var chunk: Chunk := [];
    for i := 0 to |members|
      invariant Greedy(enc, agreement, [], members) == out + Greedy(enc, agreement, chunk, members[i..])
      invariant chunk == [] <==> i == 0
    {
      assert members[i..] == [members[i]] + members[i + 1..];
      GreedyTakes(enc, agreement, out, chunk, members[i], members[i + 1..]);
      ghost var before := chunk;
      chunk := chunk + [members[i]];
      if |chunk| > 1 && Length(enc, chunk, agreement) > BATCH_LINE_BUDGET {
        chunk := chunk[..|chunk| - 1];
        assert chunk == before;
        out := out + [chunk];
        chunk := [members[i]];
      }
    }
    if chunk != [] {
      out := out + [chunk];
    }
    GreedyIsWithinBudget(enc, agreement, members);
  }

  lemma GreedyIsWithinBudget(enc: Encoder, agreement: bool, members: Chunk)
    ensures var out := Greedy(enc, agreement, [], members); Concat(out) == members && WithinBudget(enc, agreement, out)
  {
    GreedyIsGreedy(enc, agreement, [], members);
    assert [] + members == members;
    PartitionWithinBudget(enc, agreement, members, Greedy(enc, agreement, [], members));
  }

  lemma PartitionWithinBudget(enc: Encoder, agreement: bool, members: Chunk, out: seq<Chunk>)
    requires IsGreedyPartition(enc, agreement, members, out)
    ensures WithinBudget(enc, agreement, out)
  {
    forall i | 0 <= i < |out| && |out[i]| != 1 ensures Fits(enc, agreement, out[i]) {
      assert out[i][..|out[i]|] == out[i];
      assert |out[i]| >= 2 ==> PrefixFits(enc, agreement, out[i], |out[i]|);
    }
  }

  /**
  One group's batches. Whatever the encoder, the members come out in order and no line of two or more
  members is over the budget; under an additive encoder the partition is the greedy one.
  */
  method GroupBatches(members: Chunk, agreement: bool, enc: Encoder) returns (out: seq<Chunk>)
    ensures Concat(out) == members && WithinBudget(enc, agreement, out)
    ensures Additive(enc) ==> IsGreedyPartition(enc, agreement, members, out)
  {
    var linear := LinearBatches(members, agreement, enc, Additive(enc));
    if linear.Some? {
      out := linear.value;
    } else {
      out := GreedyBatches(members, agreement, enc);
    }
    GreedyIsGreedy(enc, agreement, [], members);
    assert [] + members == members;
  }

  /** The journal lines of one group are the greedy partition of its members, the only one there is. */
  method GroupLines(members: Chunk, agreement: bool, pre: string, mid: string, post: string) returns (out: seq<Chunk>)
    ensures Concat(out) == members && WithinBudget(LineLength(pre, mid, post), agreement, out)
    ensures forall a :: IsGreedyPartition(LineLength(pre, mid, post), agreement, members, a) <==> a == out
  {
    JsonIsAdditive(pre, mid, post);
    out := GroupBatches(members, agreement, LineLength(pre, mid, post));
    forall a | IsGreedyPartition(LineLength(pre, mid, post), agreement, members, a) ensures a == out {
      GreedyPartitionIsUnique(LineLength(pre, mid, post), agreement, members, a, out);
    }
  }
}
