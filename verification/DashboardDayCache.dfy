/**
The dashboard's per-day cache-report cache: closed days are folded once and kept, quiet days are kept as
sentinels, and the open day is folded on every tick. When its report is the one a full-window fold gives,
over every run of ingests and ticks.
*/
module DashboardDayCache {
  import opened IntSets

  type Instant = int   // microseconds
  type Day = int       // calendar dates, in order

  datatype Entry<B> = Entry(at: Instant, body: B)
  datatype Cached<U> = Sentinel | Folded(unit: U)
  datatype Report<U> = Empty | Rows(rows: seq<(Day, U)>)

  /** The bucketing time zone: the date of an instant, and the instant a date begins. */
  datatype Zone = Zone(dayOf: Instant -> Day, midnight: Day -> Instant)

  const WINDOW: int := 14 * 86_400_000_000

  /** Dates follow the clock, whatever their lengths, and no date lasts as long as the window. */
  ghost predicate Calendar(z: Zone) {
    && (forall d: Day, t: Instant :: d <= z.dayOf(t) <==> z.midnight(d) <= t)
    && (forall t: Instant, u: Instant :: t + WINDOW <= u ==> z.dayOf(t) < z.dayOf(u))
  }

  /******* Selections and folds *******/

  ghost function Later(t: Instant, u: Instant): Instant { if t <= u then u else t }

  function Within<B>(es: seq<Entry<B>>, a: Instant, b: Instant): seq<Entry<B>> {
    if es == [] then [] else
      var e := es[|es| - 1];
      Within(es[..|es| - 1], a, b) + if a <= e.at <= b then [e] else []
  }

  /** One date's entries between two instants, in table order. */
  function Select<B>(z: Zone, es: seq<Entry<B>>, d: Day, a: Instant, b: Instant): seq<Entry<B>> {
    if es == [] then [] else
      var e := es[|es| - 1];
      Select(z, es[..|es| - 1], d, a, b) + if a <= e.at <= b && z.dayOf(e.at) == d then [e] else []
  }

  function UnitOf<B, U>(z: Zone, fold: (Day, seq<Entry<B>>) -> U, es: seq<Entry<B>>, d: Day, a: Instant, b: Instant): Cached<U>
  {
    var s := Select(z, es, d, a, b);
    if s == [] then Sentinel else Folded(fold(d, s))
  }

  /** `places` are the places of the date's entries between two instants, in table order. */
  ghost predicate ArePlaces<B>(z: Zone, es: seq<Entry<B>>, d: Day, a: Instant, b: Instant, places: seq<nat>) {
    && (forall k | 0 <= k < |places| :: places[k] < |es|)
    && (forall k, q | 0 <= k < q < |places| :: places[k] < places[q])
    && (forall p: nat | p < |es| :: p in places <==> a <= es[p].at <= b && z.dayOf(es[p].at) == d)
  }

  ghost predicate Chosen<B>(es: seq<Entry<B>>, places: seq<nat>, s: seq<Entry<B>>) {
    |s| == |places| && forall k | 0 <= k < |places| :: places[k] < |es| && s[k] == es[places[k]]
  }

  /** A selection is the entries at those places, each once and in table order. */
  lemma {:induction false} SelectIs<B>(z: Zone, es: seq<Entry<B>>, d: Day, a: Instant, b: Instant) returns (places: seq<nat>)
    ensures ArePlaces(z, es, d, a, b, places) && Chosen(es, places, Select(z, es, d, a, b))
  {
    places := [];
    if es != [] {
      var n := |es| - 1;
      var front := SelectIs(z, es[..n], d, a, b);
      OneMorePlace(z, es[..n], es[n], d, a, b, front, Select(z, es[..n], d, a, b));
      assert es[..n] + [es[n]] == es;
      places := if a <= es[n].at <= b && z.dayOf(es[n].at) == d then front + [n] else front;
    }
  }

  lemma OneMorePlace<B>(z: Zone, es: seq<Entry<B>>, e: Entry<B>, d: Day, a: Instant, b: Instant, places: seq<nat>, s: seq<Entry<B>>)
    requires ArePlaces(z, es, d, a, b, places) && Chosen(es, places, s)
    ensures if a <= e.at <= b && z.dayOf(e.at) == d
            then ArePlaces(z, es + [e], d, a, b, places + [|es|]) && Chosen(es + [e], places + [|es|], s + [e])
            else ArePlaces(z, es + [e], d, a, b, places) && Chosen(es + [e], places, s)
  {
    assert forall k | 0 <= k < |places| :: places[k] in places;
    assert forall p: nat :: p in places + [|es|] <==> p in places || p == |es|;
  }

  /** A date's unit is the fold of its entries between the instants, in table order; without one, none. */
  lemma UnitIs<B, U>(z: Zone, fold: (Day, seq<Entry<B>>) -> U, es: seq<Entry<B>>, d: Day, a: Instant, b: Instant)
    returns (places: seq<nat>, chosen: seq<Entry<B>>)
    ensures ArePlaces(z, es, d, a, b, places)
    ensures Chosen(es, places, chosen)
    ensures UnitOf(z, fold, es, d, a, b) == if places == [] then Sentinel else Folded(fold(d, chosen))
  {
    places := SelectIs(z, es, d, a, b);
    chosen := Select(z, es, d, a, b);
  }

  lemma {:induction false} FetchKeepsDays<B>(z: Zone, es: seq<Entry<B>>, d: Day, a: Instant, b: Instant, a': Instant, b': Instant)
    requires a' <= a && b <= b'
    ensures Select(z, Within(es, a, b), d, a', b') == Select(z, es, d, a, b)
  {
    if es != [] {
      var e, front := es[|es| - 1], es[..|es| - 1];
      FetchKeepsDays(z, front, d, a, b, a', b');
      var w := Within(front, a, b);
      if a <= e.at <= b {
        assert Within(es, a, b) == w + [e] && (w + [e])[..|w|] == w;
      } else {
        assert Within(es, a, b) == w;
      }
    }
  }

  /** Bounds that part the date's entries alike select alike. */
  lemma {:induction false} SelectAlike<B>(z: Zone, es: seq<Entry<B>>, d: Day, a: Instant, b: Instant, a': Instant, b': Instant)
    requires forall e | e in es && z.dayOf(e.at) == d :: a <= e.at <= b <==> a' <= e.at <= b'
    ensures Select(z, es, d, a, b) == Select(z, es, d, a', b')
  {
    if es != [] {
      var front := es[..|es| - 1];
      assert forall e | e in front :: e in es;
      SelectAlike(z, front, d, a, b, a', b');
      assert es[|es| - 1] in es;
    }
  }

  /** Raising the floor selects the same entries exactly when none lies between the floors. */
  lemma SelectSameIff<B>(z: Zone, es: seq<Entry<B>>, d: Day, a: Instant, a': Instant, b: Instant)
    requires a <= a'
    ensures Select(z, es, d, a, b) == Select(z, es, d, a', b) <==>
              forall e | e in es && z.dayOf(e.at) == d && e.at <= b :: !(a <= e.at < a')
  {
    SelectShrinks(z, es, d, a, a', b);
    if forall e | e in es && z.dayOf(e.at) == d && e.at <= b :: !(a <= e.at < a') {
      SelectAlike(z, es, d, a, b, a', b);
    }
  }

  lemma {:induction false} SelectShrinks<B>(z: Zone, es: seq<Entry<B>>, d: Day, a: Instant, a': Instant, b: Instant)
    requires a <= a'
    ensures |Select(z, es, d, a', b)| <= |Select(z, es, d, a, b)|
    ensures |Select(z, es, d, a', b)| == |Select(z, es, d, a, b)| ==>
              forall e | e in es && z.dayOf(e.at) == d && e.at <= b :: !(a <= e.at < a')
  {
    if es != [] {
      var front := es[..|es| - 1];
      SelectShrinks(z, front, d, a, a', b);
      assert es == front + [es[|es| - 1]];
    }
  }

  lemma {:induction false} WithinEmptyIff<B>(es: seq<Entry<B>>, a: Instant, b: Instant)
    ensures Within(es, a, b) == [] <==> forall e | e in es :: !(a <= e.at <= b)
  {
    if es != [] {
      var front := es[..|es| - 1];
      WithinEmptyIff(front, a, b);
      assert es == front + [es[|es| - 1]];
    }
  }

  lemma {:induction false} SelectEmptyIff<B>(z: Zone, es: seq<Entry<B>>, d: Day, a: Instant, b: Instant)
    ensures Select(z, es, d, a, b) == [] <==> forall e | e in es && z.dayOf(e.at) == d :: !(a <= e.at <= b)
  {
    if es != [] {
      var front := es[..|es| - 1];
      SelectEmptyIff(z, front, d, a, b);
      assert es == front + [es[|es| - 1]];
    }
  }

  /** A closed date lies wholly before the present instant. */
  lemma ClosedUnit<B, U>(z: Zone, fold: (Day, seq<Entry<B>>) -> U, es: seq<Entry<B>>, d: Day, a: Instant, now: Instant)
    requires Calendar(z) && d < z.dayOf(now)
    ensures UnitOf(z, fold, es, d, a, now) == UnitOf(z, fold, es, d, a, z.midnight(d + 1))
  {
    forall e | e in es && z.dayOf(e.at) == d ensures a <= e.at <= now <==> a <= e.at <= z.midnight(d + 1) {
      assert !(d + 1 <= z.dayOf(e.at));
      assert d + 1 <= z.dayOf(now);
    }
    SelectAlike(z, es, d, a, now, a, z.midnight(d + 1));
  }

  /** A date that begins after both floors has the same entries above either. */
  lemma WholeUnit<B, U>(z: Zone, fold: (Day, seq<Entry<B>>) -> U, es: seq<Entry<B>>, d: Day, a: Instant, a': Instant, b: Instant)
    requires Calendar(z) && z.dayOf(a) < d && z.dayOf(a') < d
    ensures UnitOf(z, fold, es, d, a, b) == UnitOf(z, fold, es, d, a', b)
  {
    forall e | e in es && z.dayOf(e.at) == d ensures a <= e.at && a' <= e.at {
      assert z.midnight(d) <= e.at && !(z.midnight(d) <= a) && !(z.midnight(d) <= a');
    }
    SelectAlike(z, es, d, a, b, a', b);
  }

  /******* Rows *******/

  /** The rows of the dates in `[lo, hi)`, oldest first; sentinels emit none. */
  function RowsOf<U>(f: Day -> Cached<U>, lo: Day, hi: Day): seq<(Day, U)>
    decreases hi - lo
  {
    if hi <= lo then [] else
      RowsOf(f, lo, hi - 1) + if f(hi - 1).Folded? then [(hi - 1, f(hi - 1).unit)] else []
  }

  function Get<U>(m: map<Day, Cached<U>>): Day -> Cached<U> { (d: Day) => if d in m then m[d] else Sentinel }

  function Units<B, U>(z: Zone, fold: (Day, seq<Entry<B>>) -> U, es: seq<Entry<B>>, a: Instant, b: Instant): Day -> Cached<U> {
    (d: Day) => UnitOf(z, fold, es, d, a, b)
  }

  lemma {:induction false} RowIn<U>(f: Day -> Cached<U>, lo: Day, hi: Day, d: Day, u: U)
    ensures (d, u) in RowsOf(f, lo, hi) <==> lo <= d < hi && f(d) == Folded(u)
    decreases hi - lo
  {
    if lo < hi {
      RowIn(f, lo, hi - 1, d, u);
    }
  }

  /** A row for each date of `[lo, hi)` that has a unit, and no other row, oldest first. */
  ghost predicate ListsUnits<U(!new)>(rows: seq<(Day, U)>, f: Day -> Cached<U>, lo: Day, hi: Day) {
    && (forall d, u :: (d, u) in rows <==> lo <= d < hi && f(d) == Folded(u))
    && (forall i, j | 0 <= i < j < |rows| :: rows[i].0 < rows[j].0)
  }

  lemma {:induction false} RowsList<U(!new)>(f: Day -> Cached<U>, lo: Day, hi: Day)
    ensures ListsUnits(RowsOf(f, lo, hi), f, lo, hi)
  {
    forall d, u ensures (d, u) in RowsOf(f, lo, hi) <==> lo <= d < hi && f(d) == Folded(u) {
      RowIn(f, lo, hi, d, u);
    }
    RowsInOrder(f, lo, hi);
  }

  lemma {:induction false} RowsInOrder<U>(f: Day -> Cached<U>, lo: Day, hi: Day)
    ensures forall i, j | 0 <= i < j < |RowsOf(f, lo, hi)| :: RowsOf(f, lo, hi)[i].0 < RowsOf(f, lo, hi)[j].0
    decreases hi - lo
  {
    if lo < hi {
      RowsInOrder(f, lo, hi - 1);
      var front := RowsOf(f, lo, hi - 1);
      forall i | 0 <= i < |front| ensures front[i].0 < hi - 1 {
        RowIn(f, lo, hi - 1, front[i].0, front[i].1);
        assert front[i] in front;
      }
    }
  }

  /** Two sources of units give the same rows exactly when they agree on every date. */
  lemma RowsAgreeIff<U>(f: Day -> Cached<U>, g: Day -> Cached<U>, lo: Day, hi: Day)
    ensures RowsOf(f, lo, hi) == RowsOf(g, lo, hi) <==> forall d | lo <= d < hi :: f(d) == g(d)
  {
    if forall d | lo <= d < hi :: f(d) == g(d) {
      RowsCongruent(f, g, lo, hi);
    }
    if RowsOf(f, lo, hi) == RowsOf(g, lo, hi) {
      forall d | lo <= d < hi ensures f(d) == g(d) {
        if f(d).Folded? {
          RowIn(f, lo, hi, d, f(d).unit);
          RowIn(g, lo, hi, d, f(d).unit);
        } else if g(d).Folded? {
          RowIn(f, lo, hi, d, g(d).unit);
          RowIn(g, lo, hi, d, g(d).unit);
        }
      }
    }
  }

  lemma {:induction false} RowsCongruent<U>(f: Day -> Cached<U>, g: Day -> Cached<U>, lo: Day, hi: Day)
    requires forall d | lo <= d < hi :: f(d) == g(d)
    ensures RowsOf(f, lo, hi) == RowsOf(g, lo, hi)
    decreases hi - lo
  {
    if lo < hi {
      RowsCongruent(f, g, lo, hi - 1);
    }
  }

  lemma {:induction false} RowsSkip<U>(f: Day -> Cached<U>, lo: Day, k: Day, hi: Day)
    requires lo <= k <= hi && forall d | k <= d < hi :: f(d).Sentinel?
    ensures RowsOf(f, lo, hi) == RowsOf(f, lo, k)
    decreases hi - k
  {
    if k < hi {
      RowsSkip(f, lo, k, hi - 1);
    }
  }

  /** Rows in date order, from whatever dates the assembled map holds. */
  method Reconstruct<U>(m: map<Day, Cached<U>>, ghost lo: Day, ghost hi: Day) returns (rows: seq<(Day, U)>)
    requires lo <= hi && forall d | d in m :: lo <= d < hi
    ensures rows == RowsOf(Get(m), lo, hi)
  {
    rows := [];
    ghost var k := lo;
    var dates := Sorted(m.Keys);
    for i := 0 to |dates|
      invariant lo <= k <= hi && (if i == 0 then k == lo else k == dates[i - 1] + 1)
      invariant rows == RowsOf(Get(m), lo, k)
    {
      var d := dates[i];
      assert d in dates;
      forall e | k <= e < d ensures e !in m {
      }
      RowsSkip(Get(m), lo, k, d);
      if m[d].Folded? {
        rows := rows + [(d, m[d].unit)];
      }
      k := d + 1;
    }
    forall e | k <= e < hi ensures e !in m {
    }
    RowsSkip(Get(m), lo, k, hi);
  }

  /** Every date the window touches, the open one excepted, oldest first. */
  method NeededClosedDates(z: Zone, since: Instant, now: Instant) returns (out: seq<Day>)
    ensures forall d :: d in out <==> z.dayOf(since) <= d < z.dayOf(now)
    ensures forall i, j | 0 <= i < j < |out| :: out[i] < out[j]
    ensures z.dayOf(since) < z.dayOf(now) ==> out != [] && out[0] == z.dayOf(since)
  {
    var today := z.dayOf(now);
    var d, end := z.dayOf(since), z.dayOf(now);
    out := [];
    while d <= end
      invariant z.dayOf(since) <= d
      invariant forall e :: e in out <==> z.dayOf(since) <= e < d && e < today
      invariant forall i, j | 0 <= i < j < |out| :: out[i] < out[j]
      invariant z.dayOf(since) < d && z.dayOf(since) < today ==> out != [] && out[0] == z.dayOf(since)
    {
      if d != today {
        assert forall i | 0 <= i < |out| :: out[i] in out;
        out := out + [d];
      }
      d := d + 1;
    }
  }

  ghost predicate Grouped<B>(z: Zone, raw: seq<Entry<B>>, a: Instant, b: Instant, groups: map<Day, seq<Entry<B>>>) {
    && (forall d :: Select(z, raw, d, a, b) == if d in groups then groups[d] else [])
    && (forall d | d in groups :: groups[d] != [])
    && (groups == map[] <==> raw == [])
  }

  lemma GroupedStep<B>(z: Zone, raw: seq<Entry<B>>, e: Entry<B>, a: Instant, b: Instant, groups: map<Day, seq<Entry<B>>>)
    requires Grouped(z, raw, a, b, groups) && a <= e.at <= b
    ensures var d := z.dayOf(e.at);
            Grouped(z, raw + [e], a, b, groups[d := (if d in groups then groups[d] else []) + [e]])
  {
    assert (raw + [e])[..|raw|] == raw;
    var d := z.dayOf(e.at);
    assert d in groups[d := (if d in groups then groups[d] else []) + [e]];
  }

  method GroupByDay<B>(z: Zone, raw: seq<Entry<B>>, ghost a: Instant, ghost b: Instant) returns (groups: map<Day, seq<Entry<B>>>)
    requires forall e | e in raw :: a <= e.at <= b
    ensures Grouped(z, raw, a, b, groups)
  {
    groups := map[];
    for i := 0 to |raw|
      invariant Grouped(z, raw[..i], a, b, groups)
    {
      assert raw[..i + 1] == raw[..i] + [raw[i]] && raw[i] in raw;
      GroupedStep(z, raw[..i], raw[i], a, b, groups);
      var d := z.dayOf(raw[i].at);
      groups := groups[d := (if d in groups then groups[d] else []) + [raw[i]]];
    }
    assert raw[..|raw|] == raw;
  }

  /** Folds each date's entries; a date without entries gets no unit. */
  method BuildCachedDays<B, U>(z: Zone, fold: (Day, seq<Entry<B>>) -> U, raw: seq<Entry<B>>, ghost a: Instant, ghost b: Instant)
    returns (built: map<Day, Cached<U>>)
    requires forall e | e in raw :: a <= e.at <= b
    ensures forall d :: Get(built)(d) == UnitOf(z, fold, raw, d, a, b)
    ensures forall d | d in built :: built[d].Folded?
    ensures built == map[] <==> raw == []
  {
    var groups := GroupByDay(z, raw, a, b);
    built := map d | d in groups :: Folded(fold(d, groups[d]));
    assert built.Keys == groups.Keys;
  }

  /** Every cached unit is of a closed date, and the fold of that date's entries from where its window then began. */
  ghost predicate AllStand<B, U(!new)>(z: Zone, fold: (Day, seq<Entry<B>>) -> U, es: seq<Entry<B>>, cache: map<Day, Cached<U>>,
                                       floor: map<Day, Instant>, clock: Instant) {
    forall d | d in cache ::
      && d in floor && floor[d] + WINDOW <= clock && d < z.dayOf(clock)
      && cache[d] == UnitOf(z, fold, es, d, floor[d], z.midnight(d + 1))
  }

  lemma EvictedStand<B, U(!new)>(z: Zone, fold: (Day, seq<Entry<B>>) -> U, es: seq<Entry<B>>, next: seq<Entry<B>>,
                                 cache: map<Day, Cached<U>>, floor: map<Day, Instant>, clock: Instant, cut: Day)
    requires AllStand(z, fold, es, cache, floor, clock)
    requires forall d, a, b | d < cut :: Select(z, next, d, a, b) == Select(z, es, d, a, b)
    ensures AllStand(z, fold, next, map d | d in cache && d < cut :: cache[d], floor, clock)
  {}

  /******* The cache *******/

  class DayCache<B(!new), U(==,!new)> {
    const zone: Zone
    const fold: (Day, seq<Entry<B>>) -> U
    var entries: seq<Entry<B>>           // the session-entry table
    var cache: map<Day, Cached<U>>
    ghost var floor: map<Day, Instant>   // the start of the window each unit was folded from
    ghost var clock: Instant             // the latest instant a tick has seen

    ghost predicate Valid()
      reads this
    {
      Calendar(zone) && AllStand(zone, fold, entries, cache, floor, clock)
    }

    predicate Needed(d: Day, now: Instant) { zone.dayOf(now - WINDOW) <= d < zone.dayOf(now) }

    ghost predicate HaveAll(now: Instant)
      reads `cache
    {
      forall d | Needed(d, now) :: d in cache
    }

    /** What the date folds to from the whole window. */
    ghost function Truth(d: Day, now: Instant): Cached<U>
      reads `entries
    {
      UnitOf(zone, fold, entries, d, now - WINDOW, now)
    }

    ghost predicate InWindow(now: Instant)
      reads `entries
    {
      Within(entries, now - WINDOW, now) != []
    }

    /** The report of one full-window fold, no cache involved. */
    ghost function Scratch(now: Instant): Report<U>
      reads `entries
    {
      if !InWindow(now) then Empty else
        Rows(RowsOf(Units(zone, fold, entries, now - WINDOW, now), zone.dayOf(now - WINDOW), zone.dayOf(now) + 1))
    }

    /** What a tick served from the cache shows of a date: the open one as it is, a closed one as cached. */
    ghost function Served(now: Instant): Day -> Cached<U>
      reads `entries, `cache
    {
      var open, cached, truth := zone.dayOf(now), cache, Truth(zone.dayOf(now), now);
      (d: Day) => if d == open then truth else if d in cached then cached[d] else Sentinel
    }

    /** A report with a row for every date of the window that has a unit. */
    ghost predicate Reports(report: Report<U>, f: Day -> Cached<U>, now: Instant) {
      report.Rows? && ListsUnits(report.rows, f, zone.dayOf(now - WINDOW), zone.dayOf(now) + 1)
    }

    /** The full-window report is empty exactly without an entry in the window, and otherwise has each date's unit. */
    lemma ScratchIs(now: Instant)
      ensures Scratch(now).Empty? <==> forall e | e in entries :: !(now - WINDOW <= e.at <= now)
      ensures Scratch(now).Empty? || Reports(Scratch(now), Units(zone, fold, entries, now - WINDOW, now), now)
    {
      WithinEmptyIff(entries, now - WINDOW, now);
      RowsList(Units(zone, fold, entries, now - WINDOW, now), zone.dayOf(now - WINDOW), zone.dayOf(now) + 1);
    }

    constructor (zone: Zone, fold: (Day, seq<Entry<B>>) -> U, entries: seq<Entry<B>>)
      requires Calendar(zone)
      ensures Valid() && cache == map[] && this.entries == entries && this.zone == zone && this.fold == fold
      ensures clock == 0
    {
      this.zone, this.fold, this.entries, cache, floor, clock := zone, fold, entries, map[], map[], 0;
    }

    /******* Invalidation *******/

    /** Rows changed, none of them on a date before the watermark's: every cached date from it on is dropped. */
    method Ingest(next: seq<Entry<B>>, watermark: Instant)
      requires Valid()
      requires forall d, a, b | d < zone.dayOf(watermark) :: Select(zone, next, d, a, b) == Select(zone, entries, d, a, b)
      modifies this
      ensures Valid() && entries == next && clock == old(clock)
      ensures forall d :: d in cache <==> d in old(cache) && d < zone.dayOf(watermark)
      ensures forall d | d in cache :: cache[d] == old(cache)[d]
    {
      EvictedStand(zone, fold, entries, next, cache, floor, clock, zone.dayOf(watermark));
      cache := map d | d in cache && d < zone.dayOf(watermark) :: cache[d];
      entries := next;
    }

    /** Any signature change or regression. */
    method FullClear(next: seq<Entry<B>>)
      requires Calendar(zone)
      modifies this
      ensures Valid() && entries == next && cache == map[] && clock == old(clock)
    {
      cache, entries := map[], next;
    }

    /******* One tick *******/

    ghost method Advance(now: Instant)
      requires Valid()
      modifies `clock
      ensures Valid() && clock == Later(old(clock), now)
    {
      DatesFollowClock(clock, Later(clock, now));
      clock := Later(clock, now);
    }

    method LookupAll(needed: seq<Day>, ghost now: Instant) returns (all: bool)
      requires forall d :: d in needed <==> Needed(d, now)
      ensures all <==> HaveAll(now)
    {
      all := true;
      for i := 0 to |needed|
        invariant all <==> forall k | 0 <= k < i :: needed[k] in cache
      {
        all := all && needed[i] in cache;
      }
      assert forall k | 0 <= k < |needed| :: needed[k] in needed && Needed(needed[k], now);
      forall d | all && Needed(d, now) ensures d in cache {
        assert d in needed;
      }
    }

    /** The open date, fetched from its midnight and folded afresh. */
    method BuildToday(now: Instant) returns (built: map<Day, Cached<U>>)
      requires Calendar(zone)
      ensures forall d | d in built :: d == zone.dayOf(now)
      ensures Get(built)(zone.dayOf(now)) == Truth(zone.dayOf(now), now)
    {
      var today := zone.dayOf(now);
      var start := zone.midnight(today);
      var raw := Within(entries, start, now);
      WithinBounds(entries, start, now);
      built := BuildCachedDays(zone, fold, raw, start, now);
      forall d | d in built ensures d == today {
        BuiltFromToday(raw, built, d, start, now);
      }
      OpenUnit(raw, now);
    }

    method LookupNeeded(needed: seq<Day>) returns (cachedDays: map<Day, Cached<U>>)
      requires forall k | 0 <= k < |needed| :: needed[k] in cache
      ensures forall d :: d in cachedDays <==> d in needed
      ensures forall d | d in cachedDays :: cachedDays[d] == cache[d]
    {
      cachedDays := map[];
      for i := 0 to |needed|
        invariant forall d :: d in cachedDays <==> d in needed[..i]
        invariant forall d | d in cachedDays :: d in cache && cachedDays[d] == cache[d]
      {
        cachedDays := cachedDays[needed[i] := cache[needed[i]]];
      }
      assert needed[..|needed|] == needed;
    }

    /** The steady state: closed dates from the cache, the open one from today's fetch. */
    method AssembleWarm(needed: seq<Day>, now: Instant) returns (cachedDays: map<Day, Cached<U>>)
      requires Valid() && HaveAll(now)
      requires forall d :: d in needed <==> Needed(d, now)
      ensures forall d | d in cachedDays :: zone.dayOf(now - WINDOW) <= d <= zone.dayOf(now)
      ensures forall d | Needed(d, now) :: d in cachedDays && Get(cachedDays)(d) == cache[d]
      ensures Get(cachedDays)(zone.dayOf(now)) == Truth(zone.dayOf(now), now)
      ensures cachedDays != map[]
    {
      DatesSplit(now);
      var built := BuildToday(now);
      assert forall k | 0 <= k < |needed| :: needed[k] in needed && Needed(needed[k], now);
      cachedDays := LookupNeeded(needed);
      assert zone.dayOf(now - WINDOW) in cachedDays;
      cachedDays := cachedDays + built;
      assert zone.dayOf(now - WINDOW) in cachedDays;
    }

    lemma BuiltFromToday(raw: seq<Entry<B>>, built: map<Day, Cached<U>>, d: Day, start: Instant, now: Instant)
      requires Calendar(zone) && start == zone.midnight(zone.dayOf(now))
      requires forall e | e in raw :: start <= e.at <= now
      requires d in built && built[d].Folded? && Get(built)(d) == UnitOf(zone, fold, raw, d, start, now)
      ensures d == zone.dayOf(now)
    {
      SelectEmptyIff(zone, raw, d, start, now);
      var e :| e in raw && zone.dayOf(e.at) == d;
      assert zone.dayOf(now) <= d;
      assert zone.midnight(d) <= now;
    }

    /** Fetching from today's midnight finds all of today's entries. */
    lemma OpenUnit(raw: seq<Entry<B>>, now: Instant)
      requires Calendar(zone) && raw == Within(entries, zone.midnight(zone.dayOf(now)), now)
      ensures UnitOf(zone, fold, raw, zone.dayOf(now), zone.midnight(zone.dayOf(now)), now) == Truth(zone.dayOf(now), now)
    {
      var today, start := zone.dayOf(now), zone.midnight(zone.dayOf(now));
      FetchKeepsDays(zone, entries, today, start, now, start, now);
      assert zone.dayOf(now - WINDOW) < today;
      forall e | e in entries && zone.dayOf(e.at) == today ensures start <= e.at && now - WINDOW <= e.at {
        assert !(zone.midnight(today) <= now - WINDOW);
      }
      SelectAlike(zone, entries, today, start, now, now - WINDOW, now);
    }

    /** Stores every closed unit, a sentinel for each quiet needed date, and drops what rolled off the window. */
    method StoreClosed(built: map<Day, Cached<U>>, needed: seq<Day>, today: Day)
      requires today !in needed
      modifies `cache
      ensures forall d :: d in cache <==>
                && (d in old(cache) || (d in built && d != today) || d in needed)
                && (needed != [] ==> needed[0] <= d)
      ensures forall d | d in cache :: cache[d] ==
                if d in built && d != today then built[d] else if d in needed && d !in built then Sentinel else old(cache)[d]
    {
      var todo := built.Keys;
      while todo != {}
        invariant todo <= built.Keys
        invariant forall d :: d in cache <==> d in old(cache) || (d in built && d !in todo && d != today)
        invariant forall d | d in cache :: cache[d] ==
                    if d in built && d !in todo && d != today then built[d] else old(cache)[d]
        decreases todo
      {
        Inhabited(todo);
        var d :| d in todo;
        if d != today {
          cache := cache[d := built[d]];
        }
        todo := todo - {d};
      }
      StoreSentinels(built, needed);
      if needed != [] {
        cache := map d | d in cache && needed[0] <= d :: cache[d];
      }
    }

    method StoreSentinels(built: map<Day, Cached<U>>, needed: seq<Day>)
      modifies `cache
      ensures forall d :: d in cache <==> d in old(cache) || (d in needed && d !in built)
      ensures forall d | d in cache :: cache[d] == if d in needed && d !in built then Sentinel else old(cache)[d]
    {
      for i := 0 to |needed|
        invariant forall d :: d in cache <==> d in old(cache) || (d in needed[..i] && d !in built)
        invariant forall d | d in cache :: cache[d] == if d in needed[..i] && d !in built then Sentinel else old(cache)[d]
      {
        if needed[i] !in built {
          cache := cache[needed[i] := Sentinel];
        }
      }
      assert needed[..|needed|] == needed;
    }

    /** One full-window fetch, folded: the true unit of every date. */
    method BuildWindow(now: Instant) returns (built: map<Day, Cached<U>>)
      requires Calendar(zone)
      ensures built == map[] <==> !InWindow(now)
      ensures forall d | d in built :: zone.dayOf(now - WINDOW) <= d <= zone.dayOf(now)
      ensures forall d :: Get(built)(d) == Truth(d, now)
      ensures forall d | d in built :: built[d].Folded?
    {
      var since := now - WINDOW;
      var raw := Within(entries, since, now);
      WithinBounds(entries, since, now);
      built := BuildCachedDays(zone, fold, raw, since, now);
      forall d ensures Get(built)(d) == Truth(d, now) {
        FetchKeepsDays(zone, entries, d, since, now, since, now);
      }
      forall d | d in built ensures zone.dayOf(since) <= d <= zone.dayOf(now) {
        BuiltInWindow(raw, built, d, since, now);
      }
    }

    /** A stale tick: one full-window fetch, after which the cache, when in use, holds the window's closed dates. */
    method AssembleCold(needed: seq<Day>, now: Instant, useCache: bool) returns (cachedDays: map<Day, Cached<U>>)
      requires Valid()
      requires forall d :: d in needed <==> Needed(d, now)
      requires needed != [] && needed[0] == zone.dayOf(now - WINDOW)
      modifies `cache, `floor
      ensures cachedDays == map[] <==> !InWindow(now)
      ensures forall d | d in cachedDays :: zone.dayOf(now - WINDOW) <= d <= zone.dayOf(now)
      ensures forall d :: Get(cachedDays)(d) == Truth(d, now)
      ensures !(useCache && InWindow(now)) ==> cache == old(cache) && floor == old(floor)
      ensures useCache && InWindow(now) ==>
                && (forall d :: d in cache <==> Needed(d, now) || (d in old(cache) && zone.dayOf(now) <= d))
                && (forall d | Needed(d, now) :: cache[d] == Truth(d, now))
                && (forall d | d in cache && zone.dayOf(now) <= d :: cache[d] == old(cache)[d])
                && floor == map d | d in cache :: if Needed(d, now) then now - WINDOW else old(floor)[d]
    {
      cachedDays := BuildWindow(now);
      if cachedDays == map[] {
        return;
      }
      if useCache {
        StoreWindow(cachedDays, needed, now);
        floor := map d | d in cache :: if Needed(d, now) then now - WINDOW else floor[d];
      }
    }

    method StoreWindow(built: map<Day, Cached<U>>, needed: seq<Day>, now: Instant)
      requires Calendar(zone)
      requires forall d :: d in needed <==> Needed(d, now)
      requires needed != [] && needed[0] == zone.dayOf(now - WINDOW)
      requires forall d | d in built :: zone.dayOf(now - WINDOW) <= d <= zone.dayOf(now)
      requires forall d :: Get(built)(d) == Truth(d, now)
      modifies `cache
      ensures forall d :: d in cache <==> Needed(d, now) || (d in old(cache) && zone.dayOf(now) <= d)
      ensures forall d | Needed(d, now) :: cache[d] == Truth(d, now)
      ensures forall d | d in cache && d in old(cache) && zone.dayOf(now) <= d :: cache[d] == old(cache)[d]
    {
      DatesSplit(now);
      StoreClosed(built, needed, zone.dayOf(now));
      forall d | Needed(d, now) ensures cache[d] == Truth(d, now) {
        assert Get(built)(d) == Truth(d, now);
      }
    }

    lemma BuiltInWindow(raw: seq<Entry<B>>, built: map<Day, Cached<U>>, d: Day, since: Instant, now: Instant)
      requires Calendar(zone)
      requires forall e | e in raw :: since <= e.at <= now
      requires d in built && built[d].Folded? && Get(built)(d) == UnitOf(zone, fold, raw, d, since, now)
      ensures zone.dayOf(since) <= d <= zone.dayOf(now)
    {
      SelectEmptyIff(zone, raw, d, since, now);
      var e :| e in raw && zone.dayOf(e.at) == d;
      assert zone.midnight(d) <= now;
      assert zone.midnight(zone.dayOf(since)) <= e.at;
    }

    /** With a clock that never stepped back, only the oldest date can have lost entries to the window since it was folded. */
    lemma OldestDecides(now: Instant)
      requires Valid() && HaveAll(now) && clock <= now
      ensures forall d | Needed(d, now) && d != zone.dayOf(now - WINDOW) :: cache[d] == Truth(d, now)
      ensures Needed(zone.dayOf(now - WINDOW), now)
    {
      DatesSplit(now);
      forall d | Needed(d, now) && d != zone.dayOf(now - WINDOW) ensures cache[d] == Truth(d, now) {
        assert d in cache;
        assert zone.midnight(zone.dayOf(floor[d])) <= floor[d] <= now - WINDOW;
        assert zone.dayOf(floor[d]) <= zone.dayOf(now - WINDOW) < d;
        WholeUnit(zone, fold, entries, d, floor[d], now - WINDOW, zone.midnight(d + 1));
        ClosedUnit(zone, fold, entries, d, now - WINDOW, now);
      }
    }

    lemma SameDatesStayWarm(now: Instant, later: Instant)
      requires Calendar(zone) && HaveAll(now)
      requires zone.dayOf(later) == zone.dayOf(now) && zone.dayOf(later - WINDOW) == zone.dayOf(now - WINDOW)
      ensures HaveAll(later) && Needed(zone.dayOf(now - WINDOW), now)
    {
      assert forall d | Needed(d, later) :: Needed(d, now);
      assert zone.dayOf(now - WINDOW) < zone.dayOf(now);
    }

    /** An entry of the oldest date left the window since that date's unit was folded. */
    ghost predicate Straddled(now: Instant)
      reads `entries, `floor
    {
      var oldest := zone.dayOf(now - WINDOW);
      oldest in floor && exists e :: e in entries && zone.dayOf(e.at) == oldest && floor[oldest] <= e.at < now - WINDOW
    }

    /** The fold tells any two lists of entries apart. */
    ghost predicate Telling() { forall d, s, s' :: fold(d, s) == fold(d, s') ==> s == s' }

    /** The oldest date's cached unit is exact if, and for a telling fold only if, no entry of it left the window since. */
    lemma ExactUnlessStraddled(now: Instant)
      requires Valid() && HaveAll(now) && clock <= now
      ensures Needed(zone.dayOf(now - WINDOW), now)
      ensures !Straddled(now) ==> cache[zone.dayOf(now - WINDOW)] == Truth(zone.dayOf(now - WINDOW), now)
      ensures Telling() ==>
                (cache[zone.dayOf(now - WINDOW)] == Truth(zone.dayOf(now - WINDOW), now) <==> !Straddled(now))
    {
      DatesSplit(now);
      var d, since := zone.dayOf(now - WINDOW), now - WINDOW;
      assert d in cache;
      ClosedUnit(zone, fold, entries, d, since, now);
      SelectSameIff(zone, entries, d, floor[d], since, zone.midnight(d + 1));
      EndsByMidnight(d);
    }

    lemma EndsByMidnight(d: Day)
      requires Calendar(zone)
      ensures forall e | e in entries && zone.dayOf(e.at) == d :: e.at <= zone.midnight(d + 1)
    {
      forall e | e in entries && zone.dayOf(e.at) == d ensures e.at <= zone.midnight(d + 1) {
        assert !(d + 1 <= zone.dayOf(e.at));
      }
    }

    /** Every needed date is exact if, and for a telling fold only if, nothing of the oldest one left the window. */
    lemma UnstraddledIsExact(now: Instant)
      requires Valid() && HaveAll(now) && clock <= now
      ensures !Straddled(now) ==> forall d | Needed(d, now) :: cache[d] == Truth(d, now)
      ensures Telling() ==> ((forall d | Needed(d, now) :: cache[d] == Truth(d, now)) <==> !Straddled(now))
    {
      OldestDecides(now);
      ExactUnlessStraddled(now);
    }

    /** What a tick stores satisfies the invariant. */
    lemma StoredIsValid(now: Instant)
      requires Calendar(zone)
      ensures forall d | Needed(d, now) ::
                Truth(d, now) == UnitOf(zone, fold, entries, d, now - WINDOW, zone.midnight(d + 1))
    {
      forall d | Needed(d, now)
        ensures Truth(d, now) == UnitOf(zone, fold, entries, d, now - WINDOW, zone.midnight(d + 1))
      {
        ClosedUnit(zone, fold, entries, d, now - WINDOW, now);
      }
    }

    lemma DatesSplit(now: Instant)
      requires Calendar(zone)
      ensures zone.dayOf(now - WINDOW) < zone.dayOf(now)
      ensures forall d | zone.dayOf(now - WINDOW) <= d <= zone.dayOf(now) :: Needed(d, now) || d == zone.dayOf(now)
    {}

    lemma DatesFollowClock(t: Instant, u: Instant)
      requires Calendar(zone) && t <= u
      ensures zone.dayOf(t) <= zone.dayOf(u)
    {
      assert zone.midnight(zone.dayOf(t)) <= t;
    }

    /** The snapshot assembled from the dated units: the full-window one exactly when every unit is. */
    method Shape(cachedDays: map<Day, Cached<U>>, now: Instant) returns (report: Report<U>)
      requires Calendar(zone)
      requires forall d | d in cachedDays :: zone.dayOf(now - WINDOW) <= d <= zone.dayOf(now)
      ensures cachedDays == map[] ==> report == Empty
      ensures cachedDays != map[] ==> Reports(report, Get(cachedDays), now)
      ensures !InWindow(now) ==> (report == Scratch(now) <==> cachedDays == map[])
      ensures InWindow(now) && cachedDays != map[] ==>
                (report == Scratch(now) <==>
                 forall d | zone.dayOf(now - WINDOW) <= d <= zone.dayOf(now) :: Get(cachedDays)(d) == Truth(d, now))
    {
      if cachedDays == map[] {
        report := Empty;
      } else {
        var lo, hi := zone.dayOf(now - WINDOW), zone.dayOf(now) + 1;
        assert zone.dayOf(now - WINDOW) < zone.dayOf(now);
        var rows := Reconstruct(cachedDays, lo, hi);
        RowsList(Get(cachedDays), lo, hi);
        if InWindow(now) { ShapedAlike(cachedDays, now); }
        report := Rows(rows);
      }
    }

    /** Assembled rows are the full-window ones exactly when every date's unit is. */
    lemma ShapedAlike(cachedDays: map<Day, Cached<U>>, now: Instant)
      requires InWindow(now)
      ensures Rows(RowsOf(Get(cachedDays), zone.dayOf(now - WINDOW), zone.dayOf(now) + 1)) == Scratch(now) <==>
                forall d | zone.dayOf(now - WINDOW) <= d <= zone.dayOf(now) :: Get(cachedDays)(d) == Truth(d, now)
    {
      var units := Units(zone, fold, entries, now - WINDOW, now);
      RowsAgreeIff(Get(cachedDays), units, zone.dayOf(now - WINDOW), zone.dayOf(now) + 1);
      assert forall d :: units(d) == Truth(d, now);
    }

    /**
    The warm tick's report is the full-window one exactly when the window still has entries and every cached
    date folds to what it did when it was stored.
    */
    method WarmTick(needed: seq<Day>, now: Instant) returns (report: Report<U>)
      requires Valid() && HaveAll(now)
      requires forall d :: d in needed <==> Needed(d, now)
      modifies `clock
      ensures Valid() && clock == Later(old(clock), now)
      ensures Reports(report, Served(now), now)
      ensures report == Scratch(now) <==> InWindow(now) && forall d | Needed(d, now) :: cache[d] == Truth(d, now)
      ensures old(clock) <= now ==>
                Needed(zone.dayOf(now - WINDOW), now) &&
                (report == Scratch(now) <==>
                 InWindow(now) && cache[zone.dayOf(now - WINDOW)] == Truth(zone.dayOf(now - WINDOW), now))
      ensures old(clock) <= now && !Straddled(now) ==> (report == Scratch(now) <==> InWindow(now))
      ensures old(clock) <= now && Telling() ==> (report == Scratch(now) <==> InWindow(now) && !Straddled(now))
    {
      var cachedDays := AssembleWarm(needed, now);
      report := Shape(cachedDays, now);
      DatesSplit(now);
      ServesUnits(report, cachedDays, now);
      if clock <= now {
        OldestDecides(now);
        ExactUnlessStraddled(now);
      }
      Advance(now);
    }

    lemma ServesUnits(report: Report<U>, cachedDays: map<Day, Cached<U>>, now: Instant)
      requires Calendar(zone) && HaveAll(now) && Reports(report, Get(cachedDays), now)
      requires forall d | Needed(d, now) :: d in cachedDays && Get(cachedDays)(d) == cache[d]
      requires Get(cachedDays)(zone.dayOf(now)) == Truth(zone.dayOf(now), now)
      ensures Reports(report, Served(now), now)
    {
      DatesSplit(now);
      forall d | zone.dayOf(now - WINDOW) <= d <= zone.dayOf(now) ensures Served(now)(d) == Get(cachedDays)(d) {}
    }

    method ColdTick(needed: seq<Day>, now: Instant, useCache: bool) returns (report: Report<U>)
      requires Valid()
      requires forall d :: d in needed <==> Needed(d, now)
      requires needed != [] && needed[0] == zone.dayOf(now - WINDOW)
      modifies `cache, `floor, `clock
      ensures Valid() && clock == Later(old(clock), now)
      ensures report == Scratch(now)
      ensures !(useCache && InWindow(now)) ==> cache == old(cache) && floor == old(floor)
      ensures useCache && InWindow(now) ==>
                && (forall d :: d in cache <==> Needed(d, now) || (d in old(cache) && zone.dayOf(now) <= d))
                && (forall d | Needed(d, now) :: cache[d] == Truth(d, now))
                && (forall d | d in cache && zone.dayOf(now) <= d :: cache[d] == old(cache)[d])
                && floor == map d | d in cache :: if Needed(d, now) then now - WINDOW else old(floor)[d]
    {
      var cachedDays := AssembleCold(needed, now, useCache);
      report := Shape(cachedDays, now);
      StoredIsValid(now);
      DatesFollowClock(clock, Later(clock, now));
      DatesFollowClock(now, Later(clock, now));
      clock := Later(clock, now);
    }

    /**
    One tick. The report is the full-window one, except on the warm path when some cached unit is not the fold
    of that date's entries still in the window, or the window has run empty. While the clock never stepped back
    only the oldest date's unit can be such, and only when an entry of it left the window since it was folded;
    with a fold that tells entries apart, exactly then. After a tick that stored, the cache holds a unit for
    every closed date of the window, none older, and gains none for the open date.
    */
    method Build(now: Instant, useCache: bool) returns (report: Report<U>)
      requires Valid()
      modifies this
      ensures Valid() && entries == old(entries)
      ensures !(useCache && old(HaveAll(now))) ==> report == Scratch(now)
      ensures useCache && old(HaveAll(now)) ==>
                cache == old(cache) && Reports(report, Served(now), now) &&
                (report == Scratch(now) <==> InWindow(now) && forall d | Needed(d, now) :: cache[d] == Truth(d, now))
      ensures useCache && old(HaveAll(now)) && old(clock) <= now ==>
                Needed(zone.dayOf(now - WINDOW), now) &&
                (report == Scratch(now) <==>
                 InWindow(now) && cache[zone.dayOf(now - WINDOW)] == Truth(zone.dayOf(now - WINDOW), now))
      ensures useCache && old(HaveAll(now)) && old(clock) <= now && old(!Straddled(now)) ==>
                (report == Scratch(now) <==> InWindow(now))
      ensures useCache && old(HaveAll(now)) && old(clock) <= now && Telling() ==>
                (report == Scratch(now) <==> InWindow(now) && old(!Straddled(now)))
      ensures !(useCache && !old(HaveAll(now)) && InWindow(now)) ==> cache == old(cache) && floor == old(floor)
      ensures useCache && !old(HaveAll(now)) && InWindow(now) ==>
                && (forall d :: d in cache <==> Needed(d, now) || (d in old(cache) && zone.dayOf(now) <= d))
                && (forall d | Needed(d, now) :: cache[d] == Truth(d, now) && floor[d] == now - WINDOW)
                && (old(clock) <= now ==> forall d :: d in cache <==> Needed(d, now))
      ensures clock == Later(old(clock), now)
    {
      assert zone.dayOf(now - WINDOW) < zone.dayOf(now);
      var needed := NeededClosedDates(zone, now - WINDOW, now);
      var haveAll := false;
      if useCache {
        haveAll := LookupAll(needed, now);
      }
      if haveAll {
        report := WarmTick(needed, now);
      } else {
        report := ColdTick(needed, now, useCache);
      }
      assert useCache && InWindow(now) && !haveAll ==> forall d | Needed(d, now) :: floor[d] == now - WINDOW;
    }
  }

  /******* The straddled date goes stale *******/

  const DAY: int := 86_400_000_000

  function UtcDay(t: Instant): Day { t / DAY }
  function UtcMidnight(d: Day): Instant { d * DAY }

  lemma UtcIsACalendar()
    ensures Calendar(Zone(UtcDay, UtcMidnight))
  {}

  /** The oldest date loses its last entry to the window between two ticks on the same dates. */
  ghost predicate LastEntryLeaves<B>(z: Zone, es: seq<Entry<B>>, now: Instant, later: Instant)
  {
    && z.dayOf(later) == z.dayOf(now) && z.dayOf(later - WINDOW) == z.dayOf(now - WINDOW)
    && (exists e :: e in es && z.dayOf(e.at) == z.dayOf(now - WINDOW) && now - WINDOW <= e.at <= now)
    && (forall e | e in es && z.dayOf(e.at) == z.dayOf(now - WINDOW) :: e.at < later - WINDOW)
    && (exists e :: e in es && later - WINDOW <= e.at <= later)
  }

  lemma LeavingChangesTheFold<B, U>(z: Zone, fold: (Day, seq<Entry<B>>) -> U, es: seq<Entry<B>>, now: Instant, later: Instant)
    requires Calendar(z) && LastEntryLeaves(z, es, now, later)
    ensures UnitOf(z, fold, es, z.dayOf(now - WINDOW), now - WINDOW, now).Folded?
    ensures UnitOf(z, fold, es, z.dayOf(now - WINDOW), later - WINDOW, later).Sentinel?
    ensures Within(es, now - WINDOW, now) != [] && Within(es, later - WINDOW, later) != []
  {
    SelectEmptyIff(z, es, z.dayOf(now - WINDOW), now - WINDOW, now);
    SelectEmptyIff(z, es, z.dayOf(now - WINDOW), later - WINDOW, later);
    WithinEmptyIff(es, now - WINDOW, now);
    WithinEmptyIff(es, later - WINDOW, later);
  }

  /**
  Two ticks on the same dates, nothing ingested in between: the second is served warm, and if the oldest
  date's fold changed because an entry of it left the window, its report is not the full-window one.
  */
  method StraddledDayGoesStale<B(!new), U(==,!new)>(days: DayCache<B, U>, now: Instant, later: Instant)
    returns (warm: Report<U>)
    requires days.Valid() && days.clock <= now <= later
    requires !days.HaveAll(now) && days.InWindow(now)
    requires days.zone.dayOf(later) == days.zone.dayOf(now)
    requires days.zone.dayOf(later - WINDOW) == days.zone.dayOf(now - WINDOW)
    requires days.Truth(days.zone.dayOf(now - WINDOW), later) != days.Truth(days.zone.dayOf(now - WINDOW), now)
    modifies days
    ensures warm != old(days.Scratch(later)) && days.Valid() && days.entries == old(days.entries)
  {
    ghost var d := days.zone.dayOf(now - WINDOW);
    ghost var stored, due := days.Truth(d, now), days.Truth(d, later);
    var first := days.Build(now, true);
    assert days.Truth(d, now) == stored && days.Truth(d, later) == due;
    days.SameDatesStayWarm(now, later);
    warm := days.Build(later, true);
  }

  /** Such a table exists: one entry at the very start of the window, another days later. */
  lemma StraddledTableExists()
    ensures LastEntryLeaves(Zone(UtcDay, UtcMidnight), [Entry(10, ()), Entry(5 * DAY, ())], WINDOW + 10, WINDOW + 11)
  {
    var es := [Entry(10, ()), Entry(5 * DAY, ())];
    assert es[0] in es && es[1] in es;
  }

  /** That table, put through the cache: the report with the cache and the one without it differ. */
  method StraddledTableIsStale<U(==,!new)>(fold: (Day, seq<Entry<()>>) -> U) returns (warm: Report<U>, scratch: Report<U>)
    ensures warm != scratch
  {
    var z, es := Zone(UtcDay, UtcMidnight), [Entry(10, ()), Entry(5 * DAY, ())];
    UtcIsACalendar();
    StraddledTableExists();
    LeavingChangesTheFold(z, fold, es, WINDOW + 10, WINDOW + 11);
    var days := new DayCache(z, fold, es);
    days.DatesSplit(WINDOW + 10);
    assert days.Needed(z.dayOf(WINDOW + 10 - WINDOW), WINDOW + 10);
    warm := StraddledDayGoesStale(days, WINDOW + 10, WINDOW + 11);
    scratch := days.Build(WINDOW + 11, false);
  }

  lemma {:induction false} WithinBounds<B>(es: seq<Entry<B>>, a: Instant, b: Instant)
    ensures forall e :: e in Within(es, a, b) <==> e in es && a <= e.at <= b
  {
    if es != [] {
      var front := es[..|es| - 1];
      WithinBounds(front, a, b);
      assert es == front + [es[|es| - 1]];
    }
  }
}
