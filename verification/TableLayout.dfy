/**
The responsive table layout of the cache report: a column may be dropped and every other one keeps its role,
widths are scaled and trimmed to fit the terminal exactly or stop at their floors, and every line of the
table then has one visible width.
*/
module TableLayout {
  import opened Wrappers

  /** A glyph takes one terminal cell; an escape sequence takes none. */
  datatype Glyph = Visible(c: char) | Escape

  type Text = seq<Glyph>

  function Width(t: Text): nat {
    if t == [] then 0 else Width(t[..|t| - 1]) + if t[|t| - 1].Visible? then 1 else 0
  }

  function Repeat(g: Glyph, n: nat): Text { seq(n, _ => g) }

  function Sum(w: seq<int>): int { if w == [] then 0 else Sum(w[..|w| - 1]) + w[|w| - 1] }

  lemma {:induction false} WidthAdds(a: Text, b: Text)
    ensures Width(a + b) == Width(a) + Width(b)
  {
    if b == [] {
      assert a + b == a;
    } else {
      WidthAdds(a, b[..|b| - 1]);
      assert (a + b)[..|a + b| - 1] == a + b[..|b| - 1];
    }
  }

  lemma {:induction false} WidthRepeats(g: Glyph, n: nat)
    requires g.Visible?
    ensures Width(Repeat(g, n)) == n
  {
    if n > 0 {
      WidthRepeats(g, n - 1);
      assert Repeat(g, n)[..n - 1] == Repeat(g, n - 1);
    }
  }

  lemma {:induction false} WidthAtMostLength(t: Text)
    ensures Width(t) <= |t|
  {
    if t != [] {
      WidthAtMostLength(t[..|t| - 1]);
    }
  }

  /******* Columns *******/

  /** Per-column headers and alignments, and the columns with a role. */
  datatype Columns = Columns(headers: seq<Text>, right: seq<bool>, expand: int, numeric: seq<int>, date: Option<int>)

  ghost predicate ValidColumns(c: Columns) { |c.right| == |c.headers| && 0 <= c.expand < |c.headers| }

  function Floor(c: Columns, narrowText: int, i: int): int
    requires 0 <= i < |c.right|
  {
    if c.right[i] then 7 else if i == c.expand then narrowText else if c.date == Some(i) then 10 else 8
  }

  function Floors(c: Columns, narrowText: int, n: nat): seq<int>
    requires n <= |c.right|
  {
    if n == 0 then [] else Floors(c, narrowText, n - 1) + [Floor(c, narrowText, n - 1)]
  }

  lemma {:induction false} FloorsAt(c: Columns, narrowText: int, n: nat)
    requires n <= |c.right|
    ensures |Floors(c, narrowText, n)| == n
    ensures forall i | 0 <= i < n :: Floors(c, narrowText, n)[i] == Floor(c, narrowText, i)
  {
    if n > 0 {
      FloorsAt(c, narrowText, n - 1);
    }
  }

  /** Each column's floor: room for a figure, the given one of the expanding column, a date, or the least of any text. */
  lemma {:induction false} FloorsAre(c: Columns, narrowText: int, n: nat)
    requires n <= |c.right|
    ensures var f := Floors(c, narrowText, n);
            && |f| == n
            && (forall i | 0 <= i < n && c.right[i] :: f[i] == 7)
            && (forall i | 0 <= i < n && !c.right[i] && i == c.expand :: f[i] == narrowText)
            && (forall i | 0 <= i < n && !c.right[i] && i != c.expand :: f[i] == if c.date == Some(i) then 10 else 8)
  {
    if n > 0 {
      FloorsAre(c, narrowText, n - 1);
    }
  }

  /******* Dropping a column *******/

  function Without<T>(s: seq<T>, d: nat): seq<T> { if d < |s| then s[..d] + s[d + 1..] else s }

  /** Where a kept column goes. */
  function Shift(i: int, d: int): int { if i > d then i - 1 else i }

  function ShiftedAll(numeric: seq<int>, d: int): seq<int> {
    if numeric == [] then [] else
      var i := numeric[|numeric| - 1];
      ShiftedAll(numeric[..|numeric| - 1], d) + if i != d then [Shift(i, d)] else []
  }

  lemma {:induction false} ShiftedAllIs(numeric: seq<int>, d: int)
    ensures forall i | i != d :: Shift(i, d) in ShiftedAll(numeric, d) <==> i in numeric
  {
    if numeric != [] {
      var front := numeric[..|numeric| - 1];
      ShiftedAllIs(front, d);
      assert numeric == front + [numeric[|numeric| - 1]];
    }
  }

  method ShiftedNumeric(numeric: seq<int>, d: int) returns (kept: seq<int>)
    ensures kept == ShiftedAll(numeric, d)
  {
    kept := [];
    for q := 0 to |numeric|
      invariant kept == ShiftedAll(numeric[..q], d)
    {
      assert numeric[..q + 1][..q] == numeric[..q];
      if numeric[q] != d {
        kept := kept + [if numeric[q] > d then numeric[q] - 1 else numeric[q]];
      }
    }
    assert numeric[..|numeric|] == numeric;
  }

  /** The columns without column `d`, every index into them moved. */
  function Dropped(c: Columns, d: nat): Columns {
    Columns(Without(c.headers, d), Without(c.right, d), Shift(c.expand, d), ShiftedAll(c.numeric, d),
            if c.date.None? || c.date.value == d then None else Some(Shift(c.date.value, d)))
  }

  lemma WithoutAt<T>(s: seq<T>, d: nat, i: nat)
    requires i < |s| && i != d
    ensures 0 <= Shift(i, d) < |Without(s, d)| && Without(s, d)[Shift(i, d)] == s[i]
  {}

  /** Column `i` of `c` and column `k` of `c'` are one column: header, alignment and every role. */
  ghost predicate SameColumn(c: Columns, i: int, c': Columns, k: int) {
    && 0 <= i < |c.headers| && 0 <= k < |c'.headers| && i < |c.right| && k < |c'.right|
    && c'.headers[k] == c.headers[i] && c'.right[k] == c.right[i]
    && (k == c'.expand <==> i == c.expand) && (k in c'.numeric <==> i in c.numeric)
    && (c'.date == Some(k) <==> c.date == Some(i))
  }

  lemma SameColumnSameFloor(c: Columns, i: int, c': Columns, k: int, narrowText: int)
    requires SameColumn(c, i, c', k)
    ensures Floor(c', narrowText, k) == Floor(c, narrowText, i)
  {}

  /** The kept cells of a row move with their columns. */
  ghost predicate CellsMoved<C>(row: seq<C>, row': seq<C>, d: nat) {
    && |row'| == (if d < |row| then |row| - 1 else |row|)
    && forall i: nat | i < |row| && i != d :: 0 <= Shift(i, d) < |row'| && row'[Shift(i, d)] == row[i]
  }

  /** Every kept column stays the same column under its new index. */
  lemma DroppedKeepsColumns(c: Columns, d: nat)
    requires ValidColumns(c) && d < |c.headers| && d != c.expand
    ensures ValidColumns(Dropped(c, d)) && |Dropped(c, d).headers| == |c.headers| - 1
    ensures forall i | 0 <= i < |c.headers| && i != d :: SameColumn(c, i, Dropped(c, d), Shift(i, d))
  {
    ShiftedAllIs(c.numeric, d);
    forall i | 0 <= i < |c.headers| && i != d ensures SameColumn(c, i, Dropped(c, d), Shift(i, d)) {
      WithoutAt(c.headers, d, i);
      WithoutAt(c.right, d, i);
    }
  }

  method DropFromColumns(c: Columns, d: nat) returns (c': Columns)
    ensures c' == Dropped(c, d)
  {
    var numeric := ShiftedNumeric(c.numeric, d);
    var expand := if c.expand > d then c.expand - 1 else c.expand;
    var date := c.date;
    if date.Some? {
      if date.value == d {
        date := None;
      } else if date.value > d {
        date := Some(date.value - 1);
      }
    }
    c' := Columns(Without(c.headers, d), Without(c.right, d), expand, numeric, date);
  }

  function DroppedRows<C>(rows: seq<seq<C>>, d: nat): seq<seq<C>> {
    seq(|rows|, r requires 0 <= r < |rows| => Without(rows[r], d))
  }

  /** Every kept cell of every row moves with its column. */
  lemma DroppedKeepsCells<C>(rows: seq<seq<C>>, d: nat)
    ensures |DroppedRows(rows, d)| == |rows| && forall r | 0 <= r < |rows| :: CellsMoved(rows[r], DroppedRows(rows, d)[r], d)
  {
    forall r | 0 <= r < |rows| ensures CellsMoved(rows[r], DroppedRows(rows, d)[r], d) {
      forall i: nat | i < |rows[r]| && i != d
        ensures 0 <= Shift(i, d) < |Without(rows[r], d)| && Without(rows[r], d)[Shift(i, d)] == rows[r][i]
      {
        WithoutAt(rows[r], d, i);
      }
    }
  }

  /******* Trimming *******/

  ghost predicate AboveFloors(w: seq<int>, floors: seq<int>) {
    |w| == |floors| && forall i | 0 <= i < |w| :: floors[i] <= w[i]
  }

  lemma {:induction false} SumLowered(w: seq<int>, i: int)
    requires 0 <= i < |w|
    ensures Sum(w[i := w[i] - 1]) == Sum(w) - 1
  {
    var n := |w| - 1;
    if i == n {
      assert w[i := w[i] - 1][..n] == w[..n];
    } else {
      SumLowered(w[..n], i);
      assert w[i := w[i] - 1][..n] == w[..n][i := w[i] - 1];
    }
  }

  lemma {:induction false} SumMonotone(w: seq<int>, v: seq<int>)
    requires |w| == |v| && forall i | 0 <= i < |w| :: v[i] <= w[i]
    ensures Sum(v) <= Sum(w)
    ensures Sum(v) == Sum(w) ==> w == v
  {
    if w != [] {
      SumMonotone(w[..|w| - 1], v[..|v| - 1]);
      assert w == w[..|w| - 1] + [w[|w| - 1]] && v == v[..|v| - 1] + [v[|v| - 1]];
    }
  }

  /** The first of the widest trimmable columns, or -1; the expanding one does not take part. */
  method Widest(w: array<int>, floors: seq<int>, expand: int) returns (t: int)
    requires w.Length == |floors| && forall i | 0 <= i < |floors| :: 0 < floors[i]
    ensures t == -1 || (0 <= t < w.Length && t != expand && floors[t] < w[t])
    ensures forall i | 0 <= i < w.Length && i != expand && floors[i] < w[i] ::
              0 <= t && (w[i] < w[t] || (w[i] == w[t] && t <= i))
  {
    t := -1;
    var widest := 0;
    for i := 0 to w.Length
      invariant t == -1 ==> widest == 0
      invariant t == -1 || (0 <= t < i && t != expand && floors[t] < w[t] && widest == w[t])
      invariant forall k | 0 <= k < i && k != expand && floors[k] < w[k] ::
                  0 <= t && (w[k] < w[t] || (w[k] == w[t] && t <= k))
    {
      if i == expand || w[i] <= floors[i] {
        continue;
      }
      if w[i] > widest {
        widest, t := w[i], i;
      }
    }
  }

  /**
  Trimming takes the excess from the widest columns: a trimmed column is at most one narrower than any other
  left above its floor, and then the earlier of the two; the expanding column gives last.
  */
  ghost predicate Levelled(was: seq<int>, w: seq<int>, floors: seq<int>, expand: int)
    requires |w| == |was| == |floors| && 0 <= expand < |w|
  {
    && (forall i, j | 0 <= i < |w| && 0 <= j < |w| && i != expand && j != expand && w[i] < was[i] && floors[j] < w[j] ::
          w[j] <= w[i] || (w[j] == w[i] + 1 && i < j))
    && (w[expand] < was[expand] ==> forall i | 0 <= i < |w| && i != expand :: w[i] == floors[i])
  }

  /** The column to trim: the first widest, the expanding one once the others are at their floors. */
  ghost predicate Trimmable(w: seq<int>, floors: seq<int>, expand: int, t: int) {
    && |w| == |floors| && 0 <= t < |w| && floors[t] < w[t]
    && (t != expand ==> forall i | 0 <= i < |w| && i != expand && floors[i] < w[i] :: w[i] < w[t] || (w[i] == w[t] && t <= i))
    && (t == expand ==> forall i | 0 <= i < |w| && i != expand :: w[i] <= floors[i])
  }

  ghost predicate Trimmed(was: seq<int>, w: seq<int>, floors: seq<int>, expand: int) {
    && AboveFloors(w, floors) && AboveFloors(was, w) && 0 <= expand < |w| && Levelled(was, w, floors, expand)
  }

  lemma TrimmedStep(was: seq<int>, w: seq<int>, floors: seq<int>, expand: int, t: int)
    requires Trimmed(was, w, floors, expand) && Trimmable(w, floors, expand, t)
    ensures Trimmed(was, w[t := w[t] - 1], floors, expand)
  {}

  lemma AtFloors(was: seq<int>, w: seq<int>, floors: seq<int>, expand: int)
    requires Trimmed(was, w, floors, expand) && forall i | 0 <= i < |w| :: w[i] <= floors[i]
    ensures w == floors
  {}

  method Choose(w: array<int>, floors: seq<int>, expand: int) returns (t: int)
    requires w.Length == |floors| && 0 <= expand < w.Length && forall i | 0 <= i < |floors| :: 0 < floors[i]
    ensures t < 0 ==> forall i | 0 <= i < w.Length :: w[i] <= floors[i]
    ensures t >= 0 ==> Trimmable(w[..], floors, expand, t)
  {
    t := Widest(w, floors, expand);
    if t < 0 && w[expand] > floors[expand] {
      t := expand;
    }
  }

  /** One round: the column to trim gives up one cell; there is none (-1) when all are at their floors. */
  method TrimOne(w: array<int>, floors: seq<int>, expand: int) returns (t: int)
    requires w.Length == |floors| && 0 <= expand < w.Length && forall i | 0 <= i < |floors| :: 0 < floors[i]
    modifies w
    ensures t < 0 ==> w[..] == old(w[..]) && forall i | 0 <= i < w.Length :: w[i] <= floors[i]
    ensures t >= 0 ==> Trimmable(old(w[..]), floors, expand, t) && w[..] == old(w[..])[t := old(w[..])[t] - 1]
  {
    t := Choose(w, floors, expand);
    if t >= 0 {
      w[t] := w[t] - 1;
    }
  }

  /** Trims until the widths fit or every one is at its floor. */
  method Trim(w: array<int>, floors: seq<int>, expand: int, available: int)
    requires AboveFloors(w[..], floors) && 0 <= expand < w.Length
    requires forall i | 0 <= i < |floors| :: 0 < floors[i]
    modifies w
    ensures Trimmed(old(w[..]), w[..], floors, expand)
    ensures old(Sum(w[..])) <= available ==> w[..] == old(w[..])
    ensures old(Sum(w[..])) > available ==>
              Sum(w[..]) == if Sum(floors) <= available then available else Sum(floors)
  {
    var remainder := available - Sum(w[..]);
    ghost var was := w[..];
    while remainder < 0
      invariant remainder == available - Sum(w[..])
      invariant Trimmed(was, w[..], floors, expand)
      invariant Sum(was) <= available ==> w[..] == was
      invariant Sum(was) > available ==> remainder <= 0
      decreases -remainder
    {
      ghost var before := w[..];
      var t := TrimOne(w, floors, expand);
      if t < 0 {
        AtFloors(was, w[..], floors, expand);
        return;
      }
      TrimmedStep(was, before, floors, expand, t);
      SumLowered(before, t);
      remainder := remainder + 1;
    }
    SumMonotone(w[..], floors);
  }

  /******* Widths *******/

  function Max(a: int, b: int): int { if a < b then b else a }

  /** Integer part, towards zero. */
  function Truncated(a: int, b: int): int
    requires b > 0
  {
    if a >= 0 then a / b else -((-a) / b)
  }

  /** Column `i` takes the whole part of its share of the space, at its floor or above. */
  ghost predicate SharesAt(was: seq<int>, total: int, available: int, floors: seq<int>, w: seq<int>, i: nat)
    requires |was| == |floors| == |w| && i < |w|
  {
    && floors[i] <= w[i]
    && (0 <= was[i] && 0 <= available && 0 < total && floors[i] < w[i] ==>
          w[i] * total <= was[i] * available < (w[i] + 1) * total)
    && (0 <= was[i] && 0 <= available && 0 < total && floors[i] == w[i] ==> was[i] * available < (w[i] + 1) * total)
  }

  ghost predicate Shares(was: seq<int>, available: int, floors: seq<int>, w: seq<int>)
    requires |was| == |floors| == |w|
  {
    forall i: nat | i < |w| :: SharesAt(was, Sum(was), available, floors, w, i)
  }

  /** Shares of the space, what is left over going to the expanding column and what is lacking trimmed off. */
  ghost predicate Distributed(was: seq<int>, available: int, floors: seq<int>, expand: int, w: seq<int>)
    requires |was| == |floors| == |w| && 0 <= expand < |w|
  {
    exists shared :: IsShared(was, available, floors, shared)
                     && Spent(shared, available, floors, expand, w)
  }

  ghost predicate IsShared(was: seq<int>, available: int, floors: seq<int>, shared: seq<int>)
    requires |was| == |floors|
  {
    |shared| == |was| && Shares(was, available, floors, shared)
  }

  lemma SharesReachFloors(was: seq<int>, available: int, floors: seq<int>, shared: seq<int>)
    requires |was| == |floors| && IsShared(was, available, floors, shared)
    ensures AboveFloors(shared, floors)
  {
    forall i: nat | i < |shared| ensures floors[i] <= shared[i] {
      assert SharesAt(was, Sum(was), available, floors, shared, i);
    }
  }

  lemma ShareIs(was: int, total: int, available: int, floor: int)
    requires 0 <= was && 0 <= available && 0 < total
    ensures var w := Max(Truncated(was * available, total), floor);
            && (floor < w ==> w * total <= was * available < (w + 1) * total)
            && (floor == w ==> was * available < (w + 1) * total)
  {
    var q := was * available / total;
    assert 0 <= was * available;
    WholePart(was * available, total);
    if q < floor { Scales(q + 1, floor + 1, total); }
  }

  lemma WholePart(a: int, b: int)
    requires 0 <= a && 0 < b
    ensures (a / b) * b <= a < (a / b + 1) * b
  {}

  lemma Scales(a: int, b: int, c: int)
    requires a <= b && 0 <= c
    ensures a * c <= b * c
  {}

  /** Scaled to the space, then widened or trimmed to it: the space is filled, or every column is at its floor. */
  method CompactWidths(w: array<int>, floors: seq<int>, expand: int, available: int)
    requires |floors| == w.Length && 0 <= expand < w.Length
    requires forall i | 0 <= i < |floors| :: 0 < floors[i]
    modifies w
    ensures Distributed(old(w[..]), available, floors, expand, w[..])
    ensures AboveFloors(w[..], floors)
    ensures Sum(w[..]) == if Sum(floors) <= available then available else Sum(floors)
    ensures Sum(floors) >= available ==> w[..] == floors
  {
    ghost var was := w[..];
    ScaleAll(w, floors, available);
    ghost var shared := w[..];
    assert IsShared(was, available, floors, shared);
    SharesReachFloors(was, available, floors, shared);
    SumMonotone(shared, floors);
    FillOrTrim(w, floors, expand, available);
    SumMonotone(w[..], floors);
  }

  /** What is left over goes to the expanding column, what is lacking is trimmed off. */
  ghost predicate Spent(shared: seq<int>, available: int, floors: seq<int>, expand: int, w: seq<int>)
    requires |shared| == |floors| == |w| && 0 <= expand < |w|
  {
    if Sum(shared) < available then w == shared[expand := shared[expand] + available - Sum(shared)]
    else Trimmed(shared, w, floors, expand)
  }

  method FillOrTrim(w: array<int>, floors: seq<int>, expand: int, available: int)
    requires AboveFloors(w[..], floors) && 0 <= expand < w.Length && forall i | 0 <= i < |floors| :: 0 < floors[i]
    requires Sum(floors) <= Sum(w[..])
    modifies w
    ensures AboveFloors(w[..], floors) && Spent(old(w[..]), available, floors, expand, w[..])
    ensures Sum(w[..]) == if Sum(floors) <= available then available else Sum(floors)
  {
    var remainder := available - Sum(w[..]);
    if remainder > 0 {
      SumRaised(w[..], expand, remainder);
      ghost var before := w[..];
      w[expand] := w[expand] + remainder;
      assert w[..] == before[expand := before[expand] + remainder];
    } else {
      Trim(w, floors, expand, available);
    }
  }

  /** Every column scaled to the space, at its floor or above. */
  method ScaleAll(w: array<int>, floors: seq<int>, available: int)
    requires |floors| == w.Length
    modifies w
    ensures Shares(old(w[..]), available, floors, w[..])
  {
    var total := Sum(w[..]);
    ghost var was := w[..];
    for i := 0 to w.Length
      invariant forall k | i <= k < w.Length :: w[k] == was[k]
      invariant forall k: nat | k < i :: SharesAt(was, total, available, floors, w[..], k)
    {
      ghost var before := w[..];
      if 0 <= was[i] && 0 <= available && 0 < total { ShareIs(was[i], total, available, floors[i]); }
      w[i] := Max(if total > 0 then Truncated(w[i] * available, total) else w[i], floors[i]);
      forall k: nat | k < i ensures SharesAt(was, total, available, floors, w[..], k) {
        assert SharesAt(was, total, available, floors, before, k) && w[..][k] == before[k];
      }
    }
  }

  lemma {:induction false} SumRaised(w: seq<int>, i: int, gain: int)
    requires 0 <= i < |w|
    ensures Sum(w[i := w[i] + gain]) == Sum(w) + gain
  {
    var n := |w| - 1;
    if i == n {
      assert w[i := w[i] + gain][..n] == w[..n];
    } else {
      SumRaised(w[..n], i, gain);
      assert w[i := w[i] + gain][..n] == w[..n][i := w[i] + gain];
    }
  }

  /******* Lines *******/

  function Newline(): Glyph { Visible('\n') }

  function Split(t: Text): (lines: seq<Text>)
    ensures lines != []
  {
    if t == [] then [[]] else
      var front := Split(t[..|t| - 1]);
      var g := t[|t| - 1];
      if g == Newline() then front + [[]] else front[|front| - 1 := front[|front| - 1] + [g]]
  }

  /** The text of some lines, a line break between any two. */
  function Unsplit(lines: seq<Text>): Text
    requires lines != []
  {
    if |lines| == 1 then lines[0] else Unsplit(lines[..|lines| - 1]) + [Newline()] + lines[|lines| - 1]
  }

  /** Splitting loses nothing, and leaves no line break inside a line. */
  lemma {:induction false} SplitIsLossless(t: Text)
    ensures Unsplit(Split(t)) == t && forall k | 0 <= k < |Split(t)| :: Newline() !in Split(t)[k]
  {
    if t != [] {
      var front, g := t[..|t| - 1], t[|t| - 1];
      SplitIsLossless(front);
      LastLineGrows(Split(front), g);
      assert t == front + [g];
    }
  }

  lemma LastLineGrows(lines: seq<Text>, g: Glyph)
    requires lines != []
    ensures Unsplit(lines + [[]]) == Unsplit(lines) + [Newline()]
    ensures Unsplit(lines[|lines| - 1 := lines[|lines| - 1] + [g]]) == Unsplit(lines) + [g]
  {
    var grown := lines[|lines| - 1 := lines[|lines| - 1] + [g]];
    assert (lines + [[]])[..|lines|] == lines;
    assert grown[..|lines| - 1] == lines[..|lines| - 1];
  }

  function PadCell(t: Text, width: int, right: bool): (r: Text)
    ensures Width(t) <= width ==> Width(r) == width
  {
    var pad := width - Width(t);
    if pad <= 0 then t else
      WidthRepeats(Visible(' '), pad);
      WidthAdds(t, Repeat(Visible(' '), pad));
      WidthAdds(Repeat(Visible(' '), pad), t);
      if right then Repeat(Visible(' '), pad) + t else t + Repeat(Visible(' '), pad)
  }

  /** A padded cell is its text with blanks on the one side, in front of a right-aligned one, and never cut. */
  ghost predicate IsPadded(t: Text, width: int, right: bool, r: Text) {
    var pad := if Width(t) < width then width - Width(t) else 0;
    && |r| == |t| + pad
    && r[if right then pad else 0..][..|t|] == t
    && forall k | (if right then 0 else |t|) <= k < (if right then pad else |t| + pad) :: r[k] == Visible(' ')
  }

  lemma PadIs(t: Text, width: int, right: bool)
    ensures IsPadded(t, width, right, PadCell(t, width, right))
  {
    var r := PadCell(t, width, right);
    var pad := if Width(t) < width then width - Width(t) else 0;
    assert r == if right then Repeat(Visible(' '), pad) + t else t + Repeat(Visible(' '), pad);
  }

  /** Cell `i` of a line padded to its column; cells beyond the given ones are blank. */
  function PaddedCell(cells: seq<Text>, widths: seq<int>, right: seq<bool>, i: nat): Text
    requires i < |widths| == |right|
  {
    PadCell(if i < |cells| then cells[i] else [], widths[i], right[i])
  }

  /** The first `n` cells of a line, each between bars. */
  function Joined(cells: seq<Text>, widths: seq<int>, right: seq<bool>, bar: Text, n: nat): Text
    requires n <= |widths| == |right|
  {
    if n == 0 then bar else
      Joined(cells, widths, right, bar, n - 1) + [Visible(' ')] + PaddedCell(cells, widths, right, n - 1) + [Visible(' ')] + bar
  }

  /** Colour wraps a text in escape sequences. */
  function Styled(t: Text, color: bool): Text { if color then [Escape] + t + [Escape] else t }

  ghost predicate Fit(cells: seq<Text>, widths: seq<int>) {
    |cells| <= |widths| && forall i | 0 <= i < |cells| :: Width(cells[i]) <= widths[i]
  }

  ghost predicate Positive(widths: seq<int>) { forall i | 0 <= i < |widths| :: 0 <= widths[i] }

  lemma SurroundedWidth(front: Text, cell: Text, bar: Text)
    ensures Width(front + [Visible(' ')] + cell + [Visible(' ')] + bar) == Width(front) + 1 + Width(cell) + 1 + Width(bar)
  {
    var space := Repeat(Visible(' '), 1);
    assert [Visible(' ')] == space;
    WidthRepeats(Visible(' '), 1);
    WidthAdds(front, space);
    WidthAdds(front + space, cell);
    WidthAdds(front + space + cell, space);
    WidthAdds(front + space + cell + space, bar);
  }

  lemma PrefixSum(widths: seq<int>, n: nat)
    requires 0 < n <= |widths|
    ensures Sum(widths[..n]) == Sum(widths[..n - 1]) + widths[n - 1]
  {
    assert widths[..n][..n - 1] == widths[..n - 1];
  }

  lemma PaddedWidth(cells: seq<Text>, widths: seq<int>, right: seq<bool>, i: nat)
    requires i < |widths| == |right| && Fit(cells, widths) && Positive(widths)
    ensures Width(PaddedCell(cells, widths, right, i)) == widths[i]
  {}

  lemma {:induction false} JoinedWidth(cells: seq<Text>, widths: seq<int>, right: seq<bool>, bar: Text, n: nat)
    requires n <= |widths| == |right| && Fit(cells, widths) && Positive(widths) && Width(bar) == 1
    ensures Width(Joined(cells, widths, right, bar, n)) == Sum(widths[..n]) + 3 * n + 1
  {
    if n > 0 {
      JoinedWidth(cells, widths, right, bar, n - 1);
      var front := Joined(cells, widths, right, bar, n - 1);
      var cell := PaddedCell(cells, widths, right, n - 1);
      PaddedWidth(cells, widths, right, n - 1);
      SurroundedWidth(front, cell, bar);
      PrefixSum(widths, n);
    }
  }

  lemma StyledWidth(t: Text, color: bool)
    ensures Width(Styled(t, color)) == Width(t)
  {
    var e: Text := [Escape];
    assert e[..0] == [];
    WidthAdds(e, t);
    WidthAdds(e + t, e);
  }

  method JoinCells(cells: seq<Text>, widths: seq<int>, right: seq<bool>, bar: Text) returns (line: Text)
    requires |cells| <= |widths| == |right|
    ensures line == Joined(cells, widths, right, bar, |widths|)
  {
    var padded := cells + seq(|widths| - |cells|, _ => []);
    line := bar;
    for i := 0 to |widths|
      invariant line == Joined(cells, widths, right, bar, i)
    {
      var cell := PadCell(padded[i], widths[i], right[i]);
      assert cell == PaddedCell(cells, widths, right, i);
      line := line + [Visible(' ')] + cell + [Visible(' ')] + bar;
    }
  }

  /** A table line: a short row is padded with blank cells, so every border closes. */
  method MakeRow(cells: seq<Text>, widths: seq<int>, right: seq<bool>, v: char, color: bool) returns (line: Text)
    requires |widths| == |right| && widths != [] && Fit(cells, widths) && Positive(widths)
    ensures line == Joined(cells, widths, right, Styled([Visible(v)], color), |widths|)
    ensures Width(line) == Sum(widths) + 3 * |widths| + 1
  {
    var bar := Styled([Visible(v)], color);
    line := JoinCells(cells, widths, right, bar);
    BarWidth(v, color);
    JoinedWidth(cells, widths, right, bar, |widths|);
    assert widths[..|widths|] == widths;
  }

  lemma BarWidth(v: char, color: bool)
    ensures Width(Styled([Visible(v)], color)) == 1
  {
    assert [Visible(v)] == Repeat(Visible(v), 1);
    WidthRepeats(Visible(v), 1);
    StyledWidth([Visible(v)], color);
  }

  /** The first `n` segments of a rule, crossings between them. */
  function Segments(widths: seq<int>, dash: char, mid: char, n: nat): Text
    requires n <= |widths| && Positive(widths)
  {
    if n == 0 then [] else
      Segments(widths, dash, mid, n - 1) + Repeat(Visible(mid), if n > 1 then 1 else 0) + Repeat(Visible(dash), widths[n - 1] + 2)
  }

  lemma {:induction false} SegmentsWidth(widths: seq<int>, dash: char, mid: char, n: nat)
    requires n <= |widths| && Positive(widths)
    ensures Width(Segments(widths, dash, mid, n)) == Sum(widths[..n]) + 3 * n - if n > 0 then 1 else 0
  {
    if n > 0 {
      SegmentsWidth(widths, dash, mid, n - 1);
      var front, cross := Segments(widths, dash, mid, n - 1), Repeat(Visible(mid), if n > 1 then 1 else 0);
      var segment := Repeat(Visible(dash), widths[n - 1] + 2);
      WidthRepeats(Visible(mid), if n > 1 then 1 else 0);
      WidthRepeats(Visible(dash), widths[n - 1] + 2);
      WidthAdds(front, cross);
      WidthAdds(front + cross, segment);
      PrefixSum(widths, n);
    }
  }

  /** Where column `i` starts in a rule, behind its corner or crossing. */
  function SegmentStart(widths: seq<int>, i: nat): int
    requires i <= |widths|
  {
    Sum(widths[..i]) + 3 * i
  }

  ghost predicate DashAt(widths: seq<int>, dash: char, inner: Text, i: nat, k: nat)
    requires i < |widths|
  {
    GlyphAt(inner, SegmentStart(widths, i) + k, dash)
  }

  ghost predicate GlyphAt(t: Text, p: int, c: char) { 0 <= p < |t| && t[p] == Visible(c) }

  /** A rule is dashes along each column, a crossing before every column but the first. */
  ghost predicate IsRule(widths: seq<int>, dash: char, mid: char, n: nat, inner: Text)
    requires n <= |widths|
  {
    && (forall i: nat, k: nat | i < n && k < widths[i] + 2 :: DashAt(widths, dash, inner, i, k))
    && (forall i: nat | 0 < i < n :: GlyphAt(inner, SegmentStart(widths, i) - 1, mid))
    && (n > 0 ==> |inner| == SegmentStart(widths, n) - 1)
  }

  lemma {:induction false} SegmentsAre(widths: seq<int>, dash: char, mid: char, n: nat)
    requires n <= |widths| && Positive(widths)
    ensures IsRule(widths, dash, mid, n, Segments(widths, dash, mid, n))
  {
    if n > 0 {
      SegmentsAre(widths, dash, mid, n - 1);
      PrefixSum(widths, n);
      NextSegment(widths, dash, mid, n - 1, Segments(widths, dash, mid, n - 1));
    }
  }

  lemma NextSegment(widths: seq<int>, dash: char, mid: char, n: nat, inner: Text)
    requires n < |widths| && Positive(widths) && IsRule(widths, dash, mid, n, inner) && (n == 0 ==> inner == [])
    requires SegmentStart(widths, n + 1) == SegmentStart(widths, n) + widths[n] + 3
    ensures IsRule(widths, dash, mid, n + 1,
                   inner + Repeat(Visible(mid), if n > 0 then 1 else 0) + Repeat(Visible(dash), widths[n] + 2))
  {
    var all := inner + Repeat(Visible(mid), if n > 0 then 1 else 0) + Repeat(Visible(dash), widths[n] + 2);
    assert n == 0 ==> SegmentStart(widths, 0) == 0;
    forall i: nat, k: nat | i < n + 1 && k < widths[i] + 2 ensures DashAt(widths, dash, all, i, k) {
      if i < n { assert DashAt(widths, dash, inner, i, k); }
    }
    forall i: nat | 0 < i < n + 1 ensures GlyphAt(all, SegmentStart(widths, i) - 1, mid) {
      if i < n { assert GlyphAt(inner, SegmentStart(widths, i) - 1, mid); }
    }
  }

  lemma RuleWidth(inner: Text, left: char, end: char, color: bool)
    ensures Width(Styled([Visible(left)] + inner + [Visible(end)], color)) == Width(inner) + 2
  {
    assert [Visible(left)] == Repeat(Visible(left), 1) && [Visible(end)] == Repeat(Visible(end), 1);
    WidthRepeats(Visible(left), 1);
    WidthRepeats(Visible(end), 1);
    WidthAdds([Visible(left)], inner);
    WidthAdds([Visible(left)] + inner, [Visible(end)]);
    StyledWidth([Visible(left)] + inner + [Visible(end)], color);
  }

  /** A rule: one segment per column, joined by crossings, between two corners. */
  method HLine(widths: seq<int>, dash: char, left: char, mid: char, end: char, color: bool) returns (line: Text)
    requires widths != [] && Positive(widths)
    ensures line == Styled([Visible(left)] + Segments(widths, dash, mid, |widths|) + [Visible(end)], color)
    ensures Width(line) == Sum(widths) + 3 * |widths| + 1
  {
    var inner: Text := [];
    for i := 0 to |widths|
      invariant inner == Segments(widths, dash, mid, i)
    {
      inner := inner + Repeat(Visible(mid), if i > 0 then 1 else 0) + Repeat(Visible(dash), widths[i] + 2);
    }
    line := Styled([Visible(left)] + inner + [Visible(end)], color);
    SegmentsWidth(widths, dash, mid, |widths|);
    RuleWidth(inner, left, end, color);
    assert widths[..|widths|] == widths;
  }

  /******* The column drop, in total *******/

  predicate ValidSizes(c: Columns) { |c.right| == |c.headers| }

  /** The least width a table of these columns can have. */
  function MinTotal(c: Columns, narrowText: int): int
    requires ValidSizes(c)
  {
    Sum(Floors(c, narrowText, |c.headers|)) + 3 * |c.headers| + 1
  }

  lemma {:induction false} SumWithout(s: seq<int>, d: nat)
    requires d < |s|
    ensures Sum(Without(s, d)) == Sum(s) - s[d]
  {
    var n := |s| - 1;
    if d == n {
      assert Without(s, d) == s[..n];
    } else {
      SumWithout(s[..n], d);
      assert Without(s, d)[..n - 1] == Without(s[..n], d);
    }
  }

  lemma DroppedKeepsFloors(c: Columns, d: nat, narrowText: int)
    requires ValidColumns(c) && d < |c.headers| && d != c.expand
    ensures Floors(Dropped(c, d), narrowText, |c.headers| - 1) == Without(Floors(c, narrowText, |c.headers|), d)
  {
    DroppedSizes(c, d);
    FloorsAt(c, narrowText, |c.headers|);
    FloorsAt(Dropped(c, d), narrowText, |c.headers| - 1);
    FloorsMove(c, Dropped(c, d), d, narrowText, Floors(c, narrowText, |c.headers|), Floors(Dropped(c, d), narrowText, |c.headers| - 1));
  }

  lemma FloorsMove(c: Columns, c': Columns, d: nat, narrowText: int, floors: seq<int>, floors': seq<int>)
    requires ValidColumns(c) && d < |c.headers| && d != c.expand && c' == Dropped(c, d)
    requires |floors| == |c.headers| == |c.right| && |floors'| == |c.headers| - 1 <= |c'.right|
    requires forall i | 0 <= i < |floors| :: floors[i] == Floor(c, narrowText, i)
    requires forall k | 0 <= k < |floors'| :: floors'[k] == Floor(c', narrowText, k)
    ensures floors' == Without(floors, d)
  {
    forall i | 0 <= i < |floors| && i != d ensures floors'[Shift(i, d)] == floors[i] {
      DroppedFloorAt(c, d, narrowText, i);
    }
    OneLess(floors', floors, d);
  }

  lemma OneLess(a: seq<int>, b: seq<int>, d: nat)
    requires |a| == |b| - 1 && d < |b| && forall i | 0 <= i < |b| && i != d :: a[Shift(i, d)] == b[i]
    ensures a == Without(b, d)
  {
    forall k | 0 <= k < |a| ensures a[k] == Without(b, d)[k] {
      assert Shift(if k < d then k else k + 1, d) == k;
    }
  }

  lemma DroppedFloorAt(c: Columns, d: nat, narrowText: int, i: nat)
    requires ValidColumns(c) && d < |c.headers| && d != c.expand && i < |c.headers| && i != d
    ensures 0 <= Shift(i, d) < |Dropped(c, d).right| && Floor(Dropped(c, d), narrowText, Shift(i, d)) == Floor(c, narrowText, i)
  {
    DroppedKeepsColumns(c, d);
    SameColumnSameFloor(c, i, Dropped(c, d), Shift(i, d), narrowText);
  }

  lemma DroppedFloorSum(c: Columns, d: nat, narrowText: int)
    requires ValidColumns(c) && d < |c.headers| && d != c.expand
    ensures Sum(Floors(Dropped(c, d), narrowText, |c.headers| - 1)) == Sum(Floors(c, narrowText, |c.headers|)) - Floor(c, narrowText, d)
  {
    var floors := Floors(c, narrowText, |c.headers|);
    DroppedKeepsFloors(c, d, narrowText);
    FloorsAt(c, narrowText, |c.headers|);
    SumWithout(floors, d);
  }

  /** The drop saves exactly the column's floor and its border. */
  lemma DropSaves(c: Columns, d: nat, narrowText: int)
    requires ValidColumns(c) && d < |c.headers| && d != c.expand
    ensures ValidColumns(Dropped(c, d)) && MinTotal(Dropped(c, d), narrowText) == MinTotal(c, narrowText) - Floor(c, narrowText, d) - 3
  {
    DroppedSizes(c, d);
    DroppedFloorSum(c, d, narrowText);
    LessFloor(c, Dropped(c, d), narrowText, Floor(c, narrowText, d));
  }

  lemma LessFloor(c: Columns, c': Columns, narrowText: int, floor: int)
    requires ValidSizes(c) && ValidSizes(c') && |c'.headers| == |c.headers| - 1
    requires Sum(Floors(c', narrowText, |c.headers| - 1)) == Sum(Floors(c, narrowText, |c.headers|)) - floor
    ensures MinTotal(c', narrowText) == MinTotal(c, narrowText) - floor - 3
  {}

  lemma DroppedSizes(c: Columns, d: nat)
    requires ValidColumns(c) && d < |c.headers| && d != c.expand
    ensures ValidColumns(Dropped(c, d)) && |Dropped(c, d).headers| == |c.headers| - 1
  {
    DroppedKeepsColumns(c, d);
  }
}
