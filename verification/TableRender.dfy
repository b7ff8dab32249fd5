/**
Rendering the responsive table: content widths, the choice between wide and compact mode, truncation, and the
lines of header and rows.
*/
module TableRender {
  import opened Wrappers
  import opened TableLayout

  /******* Truncation *******/

  const ELLIPSIS: Glyph := Visible('\U{2026}')

  /** Raw truncation to a width, the tail replaced by one glyph. */
  function TruncateNum(t: Text, width: int): (r: Text)
    requires 0 < width
    ensures Width(r) <= width && (|t| <= width ==> r == t)
  {
    WidthAtMostLength(t);
    if |t| <= width then t else
      WidthAtMostLength(t[..width - 1] + [ELLIPSIS]);
      t[..width - 1] + [ELLIPSIS]
  }

  /** The shortest prefix with `n` visible glyphs, or the whole text. */
  function TakeVisible(t: Text, n: nat): Text {
    if t == [] || n == 0 then [] else [t[0]] + TakeVisible(t[1..], if t[0].Visible? then n - 1 else n)
  }

  lemma {:induction false} TakenWidth(t: Text, n: nat)
    ensures Width(TakeVisible(t, n)) == if Width(t) < n then Width(t) else n
  {
    if t != [] && n > 0 {
      var rest := TakeVisible(t[1..], if t[0].Visible? then n - 1 else n);
      TakenWidth(t[1..], if t[0].Visible? then n - 1 else n);
      WidthAdds([t[0]], rest);
      WidthAdds([t[0]], t[1..]);
      assert t == [t[0]] + t[1..];
    }
  }

  /** Truncation that counts visible glyphs only, copies escape sequences whole and closes any open style. */
  function Cut(t: Text, width: int): Text
    requires 0 < width
  {
    if Width(t) <= width then t
    else if Escape !in t then t[..if width - 1 <= |t| then width - 1 else |t|] + [ELLIPSIS]
    else TakeVisible(t, width - 1) + [Escape] + [ELLIPSIS]
  }

  /** A text that fits is kept; one that does not fills its width. */
  lemma CutFits(t: Text, width: int)
    requires 0 < width
    ensures Width(Cut(t, width)) == if Width(t) <= width then Width(t) else width
  {
    if Width(t) > width {
      WidthAtMostLength(t);
      if Escape !in t {
        var kept := t[..width - 1];
        assert forall g | g in kept :: g in t;
        PlainWidth(kept);
        WidthAdds(kept, [ELLIPSIS]);
      } else {
        var kept := TakeVisible(t, width - 1);
        TakenWidth(t, width - 1);
        WidthAdds(kept, [Escape]);
        WidthAdds(kept + [Escape], [ELLIPSIS]);
      }
    }
  }

  /**
  A cut text: everything up to the glyph that leaves one cell free, escape sequences included, then a closing one
  where the text has any, then the ellipsis.
  */
  ghost predicate IsCut(t: Text, width: int, r: Text) {
    exists p :: 0 <= p <= |t| && IsCutAt(t, width, r, p)
  }

  ghost predicate IsCutAt(t: Text, width: int, r: Text, p: nat)
    requires p <= |t|
  {
    && Width(t[..p]) == width - 1 && (p > 0 ==> t[p - 1].Visible?)
    && r == t[..p] + (if Escape in t then [Escape] else []) + [ELLIPSIS]
  }

  lemma {:induction false} TakenIsPrefix(t: Text, n: nat)
    requires n <= Width(t)
    ensures var p := |TakeVisible(t, n)|;
            p <= |t| && TakeVisible(t, n) == t[..p] && Width(t[..p]) == n && (p > 0 ==> t[p - 1].Visible?)
  {
    TakenWidth(t, n);
    if t != [] && n > 0 {
      assert t == [t[0]] + t[1..];
      WidthAdds([t[0]], t[1..]);
      var m := if t[0].Visible? then n - 1 else n;
      TakenIsPrefix(t[1..], m);
      var q := |TakeVisible(t[1..], m)|;
      assert t[..q + 1] == [t[0]] + t[1..][..q];
      TakenWidth(t[1..], m);
      assert q == 0 ==> m == 0;
    }
  }

  lemma PlainCutIs(t: Text, width: int)
    requires 0 < width < |t| && Escape !in t
    ensures IsCutAt(t, width, t[..width - 1] + [ELLIPSIS], width - 1)
  {
    assert forall g | g in t[..width - 1] :: g in t;
    PlainWidth(t[..width - 1]);
    assert width > 1 ==> t[width - 2] in t;
  }

  lemma StyledCutIs(t: Text, width: int)
    requires 0 < width <= Width(t) && Escape in t
    ensures |TakeVisible(t, width - 1)| <= |t|
    ensures IsCutAt(t, width, TakeVisible(t, width - 1) + [Escape] + [ELLIPSIS], |TakeVisible(t, width - 1)|)
  {
    TakenIsPrefix(t, width - 1);
  }

  /** A text that does not fit is cut where one cell is left for the ellipsis. */
  lemma CutIs(t: Text, width: int)
    requires 0 < width
    ensures if Width(t) <= width then Cut(t, width) == t else IsCut(t, width, Cut(t, width))
  {
    if Width(t) > width {
      WidthAtMostLength(t);
      if Escape !in t {
        PlainCutIs(t, width);
      } else {
        StyledCutIs(t, width);
      }
    }
  }

  lemma {:induction false} PlainWidth(t: Text)
    requires Escape !in t
    ensures Width(t) == |t|
  {
    if t != [] {
      assert forall g | g in t[..|t| - 1] :: g in t;
      PlainWidth(t[..|t| - 1]);
      assert t[|t| - 1] in t && t[|t| - 1].Visible?;
    }
  }

  method TruncateDisplay(t: Text, width: int) returns (r: Text)
    requires 0 < width
    ensures r == Cut(t, width)
  {
    if Escape !in t {
      PlainWidth(t);
      return TruncateNum(t, width);
    }
    if Width(t) <= width {
      return t;
    }
    var out := WalkVisible(t, width - 1);
    r := out + [Escape] + [ELLIPSIS];
  }

  /** Copies glyphs until the budget of visible ones is spent. */
  method WalkVisible(t: Text, target: nat) returns (out: Text)
    ensures out == TakeVisible(t, target)
  {
    out := [];
    var visible, i := 0, 0;
    while i < |t| && visible < target
      invariant 0 <= i <= |t| && 0 <= visible <= target
      invariant out + TakeVisible(t[i..], target - visible) == TakeVisible(t, target)
      decreases |t| - i
    {
      assert t[i..][0] == t[i] && t[i..][1..] == t[i + 1..];
      if t[i].Visible? {
        visible := visible + 1;
      }
      out := out + [t[i]];
      i := i + 1;
    }
    assert TakeVisible(t[i..], target - visible) == [];
  }

  /******* Content widths *******/

  datatype Cell = Cell(text: Text, styled: bool)

  /** Line `k` of a cell, blank past its last. */
  function LineOf(t: Text, k: nat): Text { if k < |Split(t)| then Split(t)[k] else [] }

  function MaxLine(lines: seq<Text>): nat {
    if lines == [] then 0 else
      var m := MaxLine(lines[..|lines| - 1]);
      var l := |lines[|lines| - 1]|;
      if l > m then l else m
  }

  lemma {:induction false} MaxLineBounds(lines: seq<Text>, k: nat)
    requires k < |lines|
    ensures |lines[k]| <= MaxLine(lines)
  {
    if k < |lines| - 1 {
      MaxLineBounds(lines[..|lines| - 1], k);
    }
  }

  lemma LineFits(t: Text, k: nat)
    ensures Width(LineOf(t, k)) <= MaxLine(Split(t))
  {
    WidthAtMostLength(LineOf(t, k));
    if k < |Split(t)| {
      MaxLineBounds(Split(t), k);
    }
  }

  /** Some row has more cells than the table has columns. */
  ghost predicate HasSurplus(rows: seq<seq<Cell>>, columns: nat) { exists r :: 0 <= r < |rows| && |rows[r]| > columns }

  function CellWidth(row: seq<Cell>, i: nat): int { if i < |row| then MaxLine(Split(row[i].text)) else 0 }

  /** The widest line of column `i`, header included. */
  function ContentAt(header: Text, rows: seq<seq<Cell>>, i: nat): int {
    if rows == [] then |header| else Max(ContentAt(header, rows[..|rows| - 1], i), CellWidth(rows[|rows| - 1], i))
  }

  function ContentFor(headers: seq<Text>, rows: seq<seq<Cell>>): seq<int> {
    seq(|headers|, i requires 0 <= i < |headers| => ContentAt(headers[i], rows, i))
  }

  lemma {:induction false} ContentHolds(header: Text, rows: seq<seq<Cell>>, i: nat)
    ensures |header| <= ContentAt(header, rows, i)
    ensures forall r | 0 <= r < |rows| :: CellWidth(rows[r], i) <= ContentAt(header, rows, i)
  {
    if rows != [] {
      ContentHolds(header, rows[..|rows| - 1], i);
      assert forall r | 0 <= r < |rows| - 1 :: rows[..|rows| - 1][r] == rows[r];
    }
  }

  /** `w` is the length of the longest line of column `i`, its header counting as one. */
  ghost predicate LongestLine(header: Text, rows: seq<seq<Cell>>, i: nat, w: int) {
    && |header| <= w
    && (forall r, k | 0 <= r < |rows| && LineIn(rows[r], i, k) :: |Split(rows[r][i].text)[k]| <= w)
    && (w == |header| || exists r, k :: 0 <= r < |rows| && LineIn(rows[r], i, k) && |Split(rows[r][i].text)[k]| == w)
  }

  ghost predicate LineIn(row: seq<Cell>, i: nat, k: int) { i < |row| && 0 <= k < |Split(row[i].text)| }

  lemma {:induction false} MaxLineIsLine(lines: seq<Text>) returns (k: nat)
    requires lines != []
    ensures k < |lines| && |lines[k]| == MaxLine(lines)
  {
    k := |lines| - 1;
    if |lines| > 1 {
      var q := MaxLineIsLine(lines[..|lines| - 1]);
      k := if |lines[|lines| - 1]| > MaxLine(lines[..|lines| - 1]) then k else q;
    }
  }

  lemma {:induction false} ContentIsAttained(header: Text, rows: seq<seq<Cell>>, i: nat)
    ensures ContentAt(header, rows, i) == |header|
            || exists r, k :: 0 <= r < |rows| && LineIn(rows[r], i, k) && |Split(rows[r][i].text)[k]| == ContentAt(header, rows, i)
  {
    if rows != [] {
      var n := |rows| - 1;
      var front := rows[..n];
      ContentIsAttained(header, front, i);
      ContentHolds(header, front, i);
      if CellWidth(rows[n], i) <= ContentAt(header, front, i) {
        if ContentAt(header, front, i) != |header| {
          var r, k :| 0 <= r < |front| && LineIn(front[r], i, k) && |Split(front[r][i].text)[k]| == ContentAt(header, front, i);
          assert LineIn(rows[r], i, k);
        }
      } else {
        var k := MaxLineIsLine(Split(rows[n][i].text));
        assert LineIn(rows[n], i, k);
      }
    }
  }

  lemma ContentIs(headers: seq<Text>, rows: seq<seq<Cell>>, i: nat)
    requires i < |headers|
    ensures LongestLine(headers[i], rows, i, ContentFor(headers, rows)[i])
  {
    var w := ContentAt(headers[i], rows, i);
    ContentHolds(headers[i], rows, i);
    ContentIsAttained(headers[i], rows, i);
    forall r, k | 0 <= r < |rows| && LineIn(rows[r], i, k) ensures |Split(rows[r][i].text)[k]| <= w {
      MaxLineBounds(Split(rows[r][i].text), k);
      assert CellWidth(rows[r], i) <= w;
    }
  }

  method WidenFor(content: seq<int>, row: seq<Cell>) returns (wider: seq<int>)
    requires |row| <= |content| && forall i | 0 <= i < |content| :: 0 <= content[i]
    ensures |wider| == |content| && forall i: nat | i < |content| :: wider[i] == Max(content[i], CellWidth(row, i))
  {
    wider := content;
    for i := 0 to |row|
      invariant |wider| == |content|
      invariant forall k: nat | k < |content| :: wider[k] == if k < i then Max(content[k], CellWidth(row, k)) else content[k]
    {
      wider := wider[i := Max(wider[i], MaxLine(Split(row[i].text)))];
    }
  }

  /** `None` for a row with more cells than the table has columns. */
  method ContentWidths(headers: seq<Text>, rows: seq<seq<Cell>>) returns (content: Option<seq<int>>)
    ensures content.None? <==> HasSurplus(rows, |headers|)
    ensures content.Some? ==> content.value == ContentFor(headers, rows)
    ensures content.Some? ==> forall i: nat | i < |headers| :: LongestLine(headers[i], rows, i, content.value[i])
  {
    var widths: seq<int> := seq(|headers|, i requires 0 <= i < |headers| => |headers[i]|);
    for r := 0 to |rows|
      invariant |widths| == |headers| && forall i: nat | i < |headers| :: widths[i] == ContentAt(headers[i], rows[..r], i)
      invariant forall q | 0 <= q < r :: |rows[q]| <= |headers|
    {
      if |rows[r]| > |headers| {
        return None;
      }
      forall i: nat | i < |headers| ensures 0 <= widths[i] { ContentHolds(headers[i], rows[..r], i); }
      widths := WidenFor(widths, rows[r]);
      assert rows[..r + 1][..r] == rows[..r];
    }
    assert rows[..|rows|] == rows;
    assert widths == ContentFor(headers, rows);
    forall i: nat | i < |headers| ensures LongestLine(headers[i], rows, i, widths[i]) {
      ContentIs(headers, rows, i);
    }
    return Some(widths);
  }

  /******* Mode and widths *******/

  function WideWidth(c: Columns, content: int, wideText: int, i: nat): int
    requires i < |c.right|
  {
    if c.right[i] then Max(content + 3, 11) else if i == c.expand then Max(content + 2, wideText) else Max(content + 2, 10)
  }

  function WideOf(c: Columns, content: seq<int>, wideText: int): seq<int>
    requires |content| == |c.right|
  {
    seq(|content|, i requires 0 <= i < |content| => WideWidth(c, content[i], wideText, i))
  }

  /** The greater of a least width and the content with its margin. */
  ghost predicate Covers(w: int, least: int, content: int, margin: int) {
    w >= least && w >= content + margin && (w == least || w == content + margin)
  }

  /** Figures get a margin of three and eleven cells at least; texts two, and ten or what the expanding column is given. */
  lemma WideIs(c: Columns, content: seq<int>, wideText: int, i: nat)
    requires |content| == |c.right| && i < |content|
    ensures var w := WideOf(c, content, wideText)[i];
            && (c.right[i] ==> Covers(w, 11, content[i], 3))
            && (!c.right[i] && i == c.expand ==> Covers(w, wideText, content[i], 2))
            && (!c.right[i] && i != c.expand ==> Covers(w, 10, content[i], 2))
  {}

  method WideWidths(c: Columns, content: seq<int>, wideText: int) returns (w: array<int>)
    requires |content| == |c.right|
    ensures fresh(w) && w[..] == WideOf(c, content, wideText)
    ensures forall i | 0 <= i < |content| :: content[i] < w[i]
  {
    w := new int[|content|];
    for i := 0 to |content|
      invariant forall k: nat | k < i :: w[k] == WideWidth(c, content[k], wideText, k)
    {
      w[i] := WideWidth(c, content[i], wideText, i);
    }
  }

  ghost predicate AllPositive(widths: seq<int>) { forall i | 0 <= i < |widths| :: 0 < widths[i] }

  /** Wide widths when they fit and nothing forces compact mode; compact ones fill the terminal or stop at the floors. */
  ghost predicate FitsTerminal(c: Columns, content: seq<int>, narrowText: int, wideText: int, term: int, forced: bool,
                               widths: seq<int>, compact: bool)
    requires ValidColumns(c) && |content| == |c.headers|
  {
    var wide := WideOf(c, content, wideText);
    && |widths| == |content| && AllPositive(widths)
    && (compact <==> forced || Sum(wide) + 3 * |content| + 1 > term)
    && (!compact ==> widths == wide)
    && (compact ==> Sum(widths) + 3 * |widths| + 1 == Max(term, MinTotal(c, narrowText))
                    && AboveFloors(widths, Floors(c, narrowText, |c.headers|))
                    && Distributed(wide, term - 3 * |content| - 1, Floors(c, narrowText, |c.headers|), c.expand, widths))
  }

  method FitWidths(c: Columns, content: seq<int>, narrowText: int, wideText: int, term: int, forced: bool)
    returns (widths: seq<int>, compact: bool)
    requires ValidColumns(c) && |content| == |c.headers| && 0 < narrowText && forall i | 0 <= i < |content| :: 0 <= content[i]
    ensures FitsTerminal(c, content, narrowText, wideText, term, forced, widths, compact)
    ensures !compact ==> forall i | 0 <= i < |content| :: content[i] <= widths[i]
  {
    var w := WideWidths(c, content, wideText);
    var overhead := 3 * |content| + 1;
    assert |WideOf(c, content, wideText)| == w.Length;
    compact := forced || Sum(w[..]) + overhead > term;
    if compact {
      Compact(c, content, narrowText, wideText, term, forced, w);
    }
    widths := w[..];
  }

  method Compact(c: Columns, content: seq<int>, narrowText: int, wideText: int, term: int, ghost forced: bool, w: array<int>)
    requires ValidColumns(c) && |content| == |c.headers| == w.Length && 0 < narrowText && w[..] == WideOf(c, content, wideText)
    requires forced || Sum(w[..]) + 3 * |content| + 1 > term
    modifies w
    ensures FitsTerminal(c, content, narrowText, wideText, term, forced, w[..], true)
  {
    var floors := Floors(c, narrowText, |c.headers|);
    FloorsArePositive(c, narrowText);
    CompactWidths(w, floors, c.expand, term - 3 * |content| - 1);
    CompactFits(c, content, narrowText, wideText, term, forced, w[..], floors);
  }

  lemma FloorsArePositive(c: Columns, narrowText: int)
    requires ValidColumns(c) && 0 < narrowText
    ensures var floors := Floors(c, narrowText, |c.headers|);
            |floors| == |c.headers| && forall i | 0 <= i < |floors| :: 0 < floors[i]
  {
    FloorsAt(c, narrowText, |c.headers|);
  }

  lemma CompactFits(c: Columns, content: seq<int>, narrowText: int, wideText: int, term: int, forced: bool,
                    widths: seq<int>, floors: seq<int>)
    requires ValidColumns(c) && |content| == |c.headers| == |widths| && 0 < narrowText
    requires floors == Floors(c, narrowText, |c.headers|) && |floors| == |widths| && forall i | 0 <= i < |floors| :: 0 < floors[i]
    requires forced || Sum(WideOf(c, content, wideText)) + 3 * |content| + 1 > term
    requires AboveFloors(widths, floors)
    requires Sum(widths) == if Sum(floors) <= term - 3 * |content| - 1 then term - 3 * |content| - 1 else Sum(floors)
    requires Distributed(WideOf(c, content, wideText), term - 3 * |content| - 1, floors, c.expand, widths)
    ensures FitsTerminal(c, content, narrowText, wideText, term, forced, widths, true)
  {}

  /******* Rows *******/

  /** A cell's text on one line, truncated in compact mode, coloured when anything is left. */
  function CellText(cell: Cell, k: nat, width: int, numeric: bool, compact: bool): Text
    requires 0 < width
  {
    var line := LineOf(cell.text, k);
    var out := if !compact || line == [] then line else if numeric then TruncateNum(line, width) else Cut(line, width);
    Styled(out, cell.styled && out != [])
  }

  method RenderCell(cell: Cell, k: nat, width: int, numeric: bool, compact: bool) returns (out: Text)
    requires 0 < width
    ensures out == CellText(cell, k, width, numeric, compact)
  {
    out := LineOf(cell.text, k);
    if compact && out != [] {
      if numeric {
        out := TruncateNum(out, width);
      } else if Width(out) > width {
        out := TruncateDisplay(out, width);
      }
    }
    out := Styled(out, cell.styled && out != []);
  }

  /** What a line of a cell shows: all of it, cut to its column in compact mode, a figure by its length alone. */
  ghost predicate Shows(line: Text, width: int, numeric: bool, compact: bool, body: Text)
    requires 0 < width
  {
    if !compact then body == line
    else if numeric then body == if |line| <= width then line else line[..width - 1] + [ELLIPSIS]
    else if Width(line) <= width then body == line
    else IsCut(line, width, body)
  }

  /** A cell's text on a line, and its colour around whatever is shown. */
  lemma CellShows(cell: Cell, k: nat, width: int, numeric: bool, compact: bool) returns (line: Text, body: Text)
    requires 0 < width
    ensures line == (if k < |Split(cell.text)| then Split(cell.text)[k] else []) && Shows(line, width, numeric, compact, body)
    ensures CellText(cell, k, width, numeric, compact) == if cell.styled && line != [] then [Escape] + body + [Escape] else body
  {
    line := LineOf(cell.text, k);
    CutIs(line, width);
    body := if !compact || line == [] then line else if numeric then TruncateNum(line, width) else Cut(line, width);
  }

  /** A rendered cell never exceeds its column. */
  lemma CellTextFits(cell: Cell, k: nat, width: int, numeric: bool, compact: bool)
    requires 0 < width && (compact || Width(LineOf(cell.text, k)) <= width)
    ensures Width(CellText(cell, k, width, numeric, compact)) <= width
  {
    var line := LineOf(cell.text, k);
    CutFits(line, width);
    var out := if !compact || line == [] then line else if numeric then TruncateNum(line, width) else Cut(line, width);
    StyledWidth(out, cell.styled && out != []);
  }

  /** A cell that fits is shown as it is. */
  lemma FittingCellIsWhole(cell: Cell, k: nat, width: int, numeric: bool, compact: bool)
    requires 0 < width
    requires !compact || |LineOf(cell.text, k)| <= width || (!numeric && Width(LineOf(cell.text, k)) <= width)
    ensures CellText(cell, k, width, numeric, compact) == Styled(LineOf(cell.text, k), cell.styled && LineOf(cell.text, k) != [])
  {
    WidthAtMostLength(LineOf(cell.text, k));
  }

  function CellTexts(row: seq<Cell>, k: nat, widths: seq<int>, numeric: seq<int>, compact: bool, n: nat): seq<Text>
    requires n <= |row| <= |widths| && AllPositive(widths)
  {
    if n == 0 then [] else
      CellTexts(row, k, widths, numeric, compact, n - 1) + [CellText(row[n - 1], k, widths[n - 1], n - 1 in numeric, compact)]
  }

  ghost predicate LinesFit(row: seq<Cell>, widths: seq<int>) {
    |row| <= |widths| && forall i, k: nat | 0 <= i < |row| :: Width(LineOf(row[i].text, k)) <= widths[i]
  }

  method RenderCells(row: seq<Cell>, k: nat, widths: seq<int>, numeric: seq<int>, compact: bool) returns (texts: seq<Text>)
    requires |row| <= |widths| && AllPositive(widths)
    ensures texts == CellTexts(row, k, widths, numeric, compact, |row|)
  {
    texts := [];
    for i := 0 to |row|
      invariant texts == CellTexts(row, k, widths, numeric, compact, i)
    {
      var text := RenderCell(row[i], k, widths[i], i in numeric, compact);
      texts := texts + [text];
    }
  }

  lemma {:induction false} CellTextsFit(row: seq<Cell>, k: nat, widths: seq<int>, numeric: seq<int>, compact: bool, n: nat)
    requires n <= |row| <= |widths| && AllPositive(widths) && (compact || LinesFit(row, widths))
    ensures |CellTexts(row, k, widths, numeric, compact, n)| == n && Fit(CellTexts(row, k, widths, numeric, compact, n), widths)
  {
    if n > 0 {
      CellTextsFit(row, k, widths, numeric, compact, n - 1);
      CellTextFits(row[n - 1], k, widths[n - 1], n - 1 in numeric, compact);
      OneMoreFits(CellTexts(row, k, widths, numeric, compact, n - 1),
                  CellText(row[n - 1], k, widths[n - 1], n - 1 in numeric, compact), widths);
    }
  }

  lemma OneMoreFits(texts: seq<Text>, t: Text, widths: seq<int>)
    requires Fit(texts, widths) && |texts| < |widths| && Width(t) <= widths[|texts|]
    ensures Fit(texts + [t], widths)
  {}

  function LineCount(row: seq<Cell>): nat {
    if row == [] then 1 else
      var n := |Split(row[|row| - 1].text)|;
      if |row| == 1 || n > LineCount(row[..|row| - 1]) then n else LineCount(row[..|row| - 1])
  }

  /** A row is as tall as its tallest cell, and one line without any. */
  lemma {:induction false} LineCountIs(row: seq<Cell>)
    ensures forall i | 0 <= i < |row| :: |Split(row[i].text)| <= LineCount(row)
    ensures if row == [] then LineCount(row) == 1 else exists i :: 0 <= i < |row| && |Split(row[i].text)| == LineCount(row)
  {
    if |row| > 1 {
      var front := row[..|row| - 1];
      LineCountIs(front);
      assert LineCount(row) == Max(|Split(row[|front|].text)|, LineCount(front));
      if LineCount(row) == LineCount(front) {
        var i :| 0 <= i < |front| && |Split(front[i].text)| == LineCount(front);
        assert |Split(row[i].text)| == LineCount(row);
      } else {
        assert |Split(row[|front|].text)| == LineCount(row);
      }
      TallerRow(row, front, LineCount(row));
    } else if row != [] {
      assert |Split(row[0].text)| == LineCount(row);
    }
  }

  lemma TallerRow(row: seq<Cell>, front: seq<Cell>, n: nat)
    requires row != [] && front == row[..|row| - 1] && forall i | 0 <= i < |front| :: |Split(front[i].text)| <= n
    requires |Split(row[|row| - 1].text)| <= n
    ensures forall i | 0 <= i < |row| :: |Split(row[i].text)| <= n
  {}

  /** How a table is drawn. */
  datatype Style = Style(widths: seq<int>, right: seq<bool>, numeric: seq<int>, compact: bool, v: char, color: bool)

  ghost predicate ValidStyle(s: Style) { |s.widths| == |s.right| && s.widths != [] && AllPositive(s.widths) }

  function TableWidth(s: Style): int { Sum(s.widths) + 3 * |s.widths| + 1 }

  ghost predicate AllWide(lines: seq<Text>, width: int) { forall i | 0 <= i < |lines| :: Width(lines[i]) == width }

  function BarredLine(texts: seq<Text>, s: Style): Text
    requires ValidStyle(s)
  {
    Joined(texts, s.widths, s.right, Styled([Visible(s.v)], s.color), |s.widths|)
  }

  /** Line `k` of a row, every cell's text in its own column. */
  function RowLine(row: seq<Cell>, k: nat, s: Style): Text
    requires ValidStyle(s) && |row| <= |s.widths|
  {
    BarredLine(CellTexts(row, k, s.widths, s.numeric, s.compact, |row|), s)
  }

  function RowLines(row: seq<Cell>, s: Style, n: nat): seq<Text>
    requires ValidStyle(s) && |row| <= |s.widths|
  {
    if n == 0 then [] else RowLines(row, s, n - 1) + [RowLine(row, n - 1, s)]
  }

  method RenderLine(row: seq<Cell>, k: nat, s: Style) returns (line: Text)
    requires ValidStyle(s) && |row| <= |s.widths| && (s.compact || LinesFit(row, s.widths))
    ensures line == RowLine(row, k, s) && Width(line) == TableWidth(s)
  {
    var texts := RenderCells(row, k, s.widths, s.numeric, s.compact);
    CellTextsFit(row, k, s.widths, s.numeric, s.compact, |row|);
    line := MakeRow(texts, s.widths, s.right, s.v, s.color);
  }

  /** One table row, on as many lines as its tallest cell. */
  method RenderRow(row: seq<Cell>, s: Style) returns (lines: seq<Text>)
    requires ValidStyle(s) && |row| <= |s.widths| && (s.compact || LinesFit(row, s.widths))
    ensures lines == RowLines(row, s, LineCount(row)) && AllWide(lines, TableWidth(s))
  {
    lines := [];
    for k := 0 to LineCount(row)
      invariant lines == RowLines(row, s, k) && AllWide(lines, TableWidth(s))
    {
      var line := RenderLine(row, k, s);
      lines := lines + [line];
    }
  }

  /******* The header *******/

  /** Spaces become line breaks. */
  function Broken(t: Text): Text { seq(|t|, i requires 0 <= i < |t| => if t[i] == Visible(' ') then Newline() else t[i]) }

  function ShownHeaders(headers: seq<Text>, compact: bool): seq<Text> {
    if compact then seq(|headers|, i requires 0 <= i < |headers| => Broken(headers[i])) else headers
  }

  function HeaderText(t: Text, k: nat, width: int, compact: bool, color: bool): Text
    requires 0 < width
  {
    Styled(if compact then TruncateNum(LineOf(t, k), width) else LineOf(t, k), color)
  }

  /** A line of a header: whole, or cut by its length in compact mode, where every blank breaks the line. */
  lemma HeaderShows(headers: seq<Text>, i: nat, k: nat, width: int, compact: bool, color: bool)
    returns (shown: Text, line: Text, body: Text)
    requires 0 < width && i < |headers|
    ensures |shown| == |headers[i]|
    ensures forall p | 0 <= p < |shown| ::
              shown[p] == if compact && headers[i][p] == Visible(' ') then Visible('\n') else headers[i][p]
    ensures line == if k < |Split(shown)| then Split(shown)[k] else []
    ensures body == if compact && |line| > width then line[..width - 1] + [ELLIPSIS] else line
    ensures HeaderText(ShownHeaders(headers, compact)[i], k, width, compact, color)
         == if color then [Escape] + body + [Escape] else body
  {
    shown := ShownHeaders(headers, compact)[i];
    line := LineOf(shown, k);
    body := if compact then TruncateNum(line, width) else line;
  }

  function HeaderTexts(shown: seq<Text>, k: nat, s: Style, n: nat): seq<Text>
    requires ValidStyle(s) && n <= |shown| <= |s.widths|
  {
    if n == 0 then [] else
      HeaderTexts(shown, k, s, n - 1) + [HeaderText(shown[n - 1], k, s.widths[n - 1], s.compact, s.color)]
  }

  function HeaderLines(shown: seq<Text>, s: Style, n: nat): seq<Text>
    requires ValidStyle(s) && |shown| <= |s.widths|
  {
    if n == 0 then [] else HeaderLines(shown, s, n - 1) + [BarredLine(HeaderTexts(shown, n - 1, s, |shown|), s)]
  }

  function HeaderHeight(shown: seq<Text>): (n: nat)
    ensures 1 <= n
  {
    if shown == [] then 1 else
      var h := HeaderHeight(shown[..|shown| - 1]);
      var l := |Split(shown[|shown| - 1])|;
      if l > h then l else h
  }

  lemma {:induction false} HeaderHeightIs(shown: seq<Text>)
    ensures forall i | 0 <= i < |shown| :: |Split(shown[i])| <= HeaderHeight(shown)
    ensures HeaderHeight(shown) == 1 || exists i :: 0 <= i < |shown| && |Split(shown[i])| == HeaderHeight(shown)
  {
    if shown != [] {
      var front := shown[..|shown| - 1];
      HeaderHeightIs(front);
      if HeaderHeight(shown) != 1 && |Split(shown[|shown| - 1])| <= HeaderHeight(front) {
        var i :| 0 <= i < |front| && |Split(front[i])| == HeaderHeight(front);
        assert shown[i] == front[i];
      } else if HeaderHeight(shown) != 1 {
        assert |Split(shown[|front|])| == HeaderHeight(shown);
      }
    }
  }

  method TallestHeader(shown: seq<Text>) returns (n: nat)
    ensures n == HeaderHeight(shown)
  {
    n := 1;
    for i := 0 to |shown|
      invariant n == HeaderHeight(shown[..i])
    {
      assert shown[..i + 1][..i] == shown[..i];
      n := if |Split(shown[i])| > n then |Split(shown[i])| else n;
    }
    assert shown[..|shown|] == shown;
  }

  method RenderHeader(t: Text, k: nat, width: int, compact: bool, color: bool) returns (out: Text)
    requires 0 < width && (compact || Width(LineOf(t, k)) <= width)
    ensures out == HeaderText(t, k, width, compact, color) && Width(out) <= width
  {
    var text := LineOf(t, k);
    if compact && |text| > width {
      text := TruncateNum(text, width);
    } else if compact {
      WidthAtMostLength(text);
    }
    StyledWidth(text, color);
    out := Styled(text, color);
  }

  method RenderHeaders(shown: seq<Text>, k: nat, s: Style) returns (texts: seq<Text>)
    requires ValidStyle(s) && |shown| <= |s.widths| && HeadersFit(shown, s)
    ensures texts == HeaderTexts(shown, k, s, |shown|)
  {
    texts := [];
    for i := 0 to |shown|
      invariant texts == HeaderTexts(shown, k, s, i)
    {
      if !s.compact { HeaderLineFits(shown[i], k, s.widths[i]); }
      var text := RenderHeader(shown[i], k, s.widths[i], s.compact, s.color);
      texts := texts + [text];
    }
  }

  /** In wide mode every header fits its column. */
  ghost predicate HeadersFit(shown: seq<Text>, s: Style) {
    |shown| <= |s.widths| && (s.compact || forall i | 0 <= i < |shown| :: |shown[i]| <= s.widths[i])
  }

  lemma HeaderTextFits(t: Text, k: nat, width: int, compact: bool, color: bool)
    requires 0 < width && (compact || |t| <= width)
    ensures Width(HeaderText(t, k, width, compact, color)) <= width
  {
    if !compact { HeaderLineFits(t, k, width); }
    StyledWidth(if compact then TruncateNum(LineOf(t, k), width) else LineOf(t, k), color);
  }

  lemma {:induction false} HeaderTextsFit(shown: seq<Text>, k: nat, s: Style, n: nat)
    requires ValidStyle(s) && n <= |shown| && HeadersFit(shown, s)
    ensures |HeaderTexts(shown, k, s, n)| == n && Fit(HeaderTexts(shown, k, s, n), s.widths)
  {
    if n > 0 {
      HeaderTextsFit(shown, k, s, n - 1);
      HeaderTextFits(shown[n - 1], k, s.widths[n - 1], s.compact, s.color);
      OneMoreFits(HeaderTexts(shown, k, s, n - 1), HeaderText(shown[n - 1], k, s.widths[n - 1], s.compact, s.color), s.widths);
    }
  }

  /** No line is longer than its text. */
  lemma {:induction false} SplitShort(t: Text, k: nat)
    requires k < |Split(t)|
    ensures |Split(t)[k]| <= |t|
  {
    if t != [] {
      var front := t[..|t| - 1];
      if k < |Split(front)| {
        SplitShort(front, k);
      }
    }
  }

  lemma HeaderLineFits(t: Text, k: nat, width: int)
    requires |t| <= width
    ensures Width(LineOf(t, k)) <= width
  {
    WidthAtMostLength(LineOf(t, k));
    if k < |Split(t)| {
      SplitShort(t, k);
    }
  }

  method RenderHeaderLine(shown: seq<Text>, k: nat, s: Style) returns (line: Text)
    requires ValidStyle(s) && HeadersFit(shown, s)
    ensures line == BarredLine(HeaderTexts(shown, k, s, |shown|), s) && Width(line) == TableWidth(s)
  {
    var texts := RenderHeaders(shown, k, s);
    HeaderTextsFit(shown, k, s, |shown|);
    line := MakeRow(texts, s.widths, s.right, s.v, s.color);
  }

  method RenderHeaderRow(headers: seq<Text>, s: Style) returns (lines: seq<Text>)
    requires ValidStyle(s) && |headers| == |s.widths| && HeadersFit(headers, s)
    ensures lines == HeaderLines(ShownHeaders(headers, s.compact), s, HeaderHeight(ShownHeaders(headers, s.compact)))
    ensures AllWide(lines, TableWidth(s))
  {
    var shown := ShownHeaders(headers, s.compact);
    var n := TallestHeader(shown);
    lines := [];
    for k := 0 to n
      invariant lines == HeaderLines(shown, s, k) && AllWide(lines, TableWidth(s))
    {
      var line := RenderHeaderLine(shown, k, s);
      lines := lines + [line];
    }
  }

  /******* The table *******/

  datatype Chars = Chars(tl: char, tm: char, tr: char, ml: char, mm: char, mr: char, bl: char, bm: char, br: char, h: char, v: char)

  /** The first `n` blocks of lines, a rule between any two and another under the last. */
  function Stack(blocks: seq<seq<Text>>, rule: Text, last: Text, n: nat): seq<Text>
    requires n <= |blocks|
  {
    if n == 0 then [] else Stack(blocks, rule, last, n - 1) + blocks[n - 1] + [if n < |blocks| then rule else last]
  }

  function BlockStart(blocks: seq<seq<Text>>, r: nat): nat
    requires r <= |blocks|
  {
    if r == 0 then 0 else BlockStart(blocks, r - 1) + |blocks[r - 1]| + 1
  }

  lemma {:induction false} StackLength(blocks: seq<seq<Text>>, rule: Text, last: Text, n: nat)
    requires n <= |blocks|
    ensures |Stack(blocks, rule, last, n)| == BlockStart(blocks, n)
  {
    if n > 0 {
      StackLength(blocks, rule, last, n - 1);
    }
  }

  /** Each block's lines stand in its place. */
  lemma {:induction false} BlockStandsAt(blocks: seq<seq<Text>>, rule: Text, last: Text, n: nat, r: nat, k: nat)
    requires r < n <= |blocks| && k < |blocks[r]|
    ensures BlockStart(blocks, r) + k < |Stack(blocks, rule, last, n)|
    ensures Stack(blocks, rule, last, n)[BlockStart(blocks, r) + k] == blocks[r][k]
  {
    var above, end := Stack(blocks, rule, last, n - 1), [if n < |blocks| then rule else last];
    if r < n - 1 {
      BlockStandsAt(blocks, rule, last, n - 1, r, k);
      InFront(above, blocks[n - 1], end, BlockStart(blocks, r) + k);
    } else {
      StackLength(blocks, rule, last, n - 1);
      InMiddle(above, blocks[n - 1], end, k);
    }
  }

  lemma InFront<T>(a: seq<T>, b: seq<T>, c: seq<T>, k: nat)
    requires k < |a|
    ensures (a + b + c)[k] == a[k]
  {}

  lemma InMiddle<T>(a: seq<T>, b: seq<T>, c: seq<T>, k: nat)
    requires k < |b|
    ensures (a + b + c)[|a| + k] == b[k]
  {}

  /** One block of lines per row. */
  function Blocks(rows: seq<seq<Cell>>, s: Style, n: nat): seq<seq<Text>>
    requires ValidStyle(s) && n <= |rows| && forall r | 0 <= r < |rows| :: |rows[r]| <= |s.widths|
  {
    if n == 0 then [] else Blocks(rows, s, n - 1) + [RowLines(rows[n - 1], s, LineCount(rows[n - 1]))]
  }

  lemma {:induction false} BlockOf(rows: seq<seq<Cell>>, s: Style, n: nat, r: nat)
    requires ValidStyle(s) && r < n <= |rows| && forall q | 0 <= q < |rows| :: |rows[q]| <= |s.widths|
    ensures |Blocks(rows, s, n)| == n && Blocks(rows, s, n)[r] == RowLines(rows[r], s, LineCount(rows[r]))
  {
    if n > 1 {
      BlockOf(rows, s, n - 1, if r < n - 1 then r else 0);
    }
  }

  function RuleOf(s: Style, dash: char, left: char, mid: char, end: char): Text
    requires ValidStyle(s)
  {
    Styled([Visible(left)] + Segments(s.widths, dash, mid, |s.widths|) + [Visible(end)], s.color)
  }

  /** The rows, ruled off from each other and closed. */
  function Body(rows: seq<seq<Cell>>, s: Style, rule: Text, bottom: Text): seq<Text>
    requires ValidStyle(s) && forall r | 0 <= r < |rows| :: |rows[r]| <= |s.widths|
  {
    var blocks := Blocks(rows, s, |rows|);
    if rows == [] then [bottom] else Stack(blocks, rule, bottom, |blocks|)
  }

  /** The top rule, the header and the rule below it. */
  function Head(headers: seq<Text>, s: Style, ch: Chars): seq<Text>
    requires ValidStyle(s) && |headers| == |s.widths|
  {
    var shown := ShownHeaders(headers, s.compact);
    [RuleOf(s, ch.h, ch.tl, ch.tm, ch.tr)] + HeaderLines(shown, s, HeaderHeight(shown)) + [RuleOf(s, ch.h, ch.ml, ch.mm, ch.mr)]
  }

  function TableLines(headers: seq<Text>, rows: seq<seq<Cell>>, s: Style, ch: Chars): seq<Text>
    requires ValidStyle(s) && |headers| == |s.widths| && forall r | 0 <= r < |rows| :: |rows[r]| <= |s.widths|
  {
    Head(headers, s, ch) + Body(rows, s, RuleOf(s, ch.h, ch.ml, ch.mm, ch.mr), RuleOf(s, ch.h, ch.bl, ch.bm, ch.br))
  }

  method RenderBlocks(rows: seq<seq<Cell>>, s: Style) returns (blocks: seq<seq<Text>>)
    requires ValidStyle(s) && forall r | 0 <= r < |rows| :: |rows[r]| <= |s.widths| && (s.compact || LinesFit(rows[r], s.widths))
    ensures blocks == Blocks(rows, s, |rows|)
    ensures forall r | 0 <= r < |blocks| :: AllWide(blocks[r], TableWidth(s))
  {
    blocks := [];
    for n := 0 to |rows|
      invariant blocks == Blocks(rows, s, n)
      invariant forall r | 0 <= r < |blocks| :: AllWide(blocks[r], TableWidth(s))
    {
      var block := RenderRow(rows[n], s);
      blocks := blocks + [block];
    }
  }

  method StackBlocks(blocks: seq<seq<Text>>, rule: Text, last: Text, ghost width: int) returns (lines: seq<Text>)
    requires Width(rule) == Width(last) == width && forall r | 0 <= r < |blocks| :: AllWide(blocks[r], width)
    ensures lines == Stack(blocks, rule, last, |blocks|) && AllWide(lines, width)
  {
    lines := [];
    for r := 0 to |blocks|
      invariant lines == Stack(blocks, rule, last, r) && AllWide(lines, width)
    {
      lines := lines + blocks[r] + [if r < |blocks| - 1 then rule else last];
    }
  }

  method RenderRule(s: Style, dash: char, left: char, mid: char, end: char) returns (line: Text)
    requires ValidStyle(s)
    ensures line == RuleOf(s, dash, left, mid, end) && Width(line) == TableWidth(s)
  {
    line := HLine(s.widths, dash, left, mid, end, s.color);
  }

  method RenderHead(headers: seq<Text>, s: Style, ch: Chars) returns (lines: seq<Text>)
    requires ValidStyle(s) && |headers| == |s.widths| && HeadersFit(headers, s)
    ensures lines == Head(headers, s, ch) && lines != [] && AllWide(lines, TableWidth(s))
  {
    var top := RenderRule(s, ch.h, ch.tl, ch.tm, ch.tr);
    var header := RenderHeaderRow(headers, s);
    var rule := RenderRule(s, ch.h, ch.ml, ch.mm, ch.mr);
    AllWideBetween(top, header, rule, TableWidth(s));
    lines := [top] + header + [rule];
  }

  lemma AllWideBetween(top: Text, lines: seq<Text>, rule: Text, width: int)
    requires Width(top) == Width(rule) == width && AllWide(lines, width)
    ensures AllWide([top] + lines + [rule], width)
  {}

  method RenderBody(rows: seq<seq<Cell>>, s: Style, rule: Text, bottom: Text) returns (lines: seq<Text>)
    requires ValidStyle(s) && Width(rule) == Width(bottom) == TableWidth(s)
    requires forall r | 0 <= r < |rows| :: |rows[r]| <= |s.widths| && (s.compact || LinesFit(rows[r], s.widths))
    ensures lines == Body(rows, s, rule, bottom) && AllWide(lines, TableWidth(s))
  {
    if rows == [] {
      return [bottom];
    }
    var blocks := RenderBlocks(rows, s);
    lines := StackBlocks(blocks, rule, bottom, TableWidth(s));
  }

  /** The table's lines between its banner and its end, all of one visible width. */
  method RenderTable(headers: seq<Text>, rows: seq<seq<Cell>>, s: Style, ch: Chars) returns (lines: seq<Text>)
    requires ValidStyle(s) && |headers| == |s.widths| && HeadersFit(headers, s)
    requires forall r | 0 <= r < |rows| :: |rows[r]| <= |s.widths| && (s.compact || LinesFit(rows[r], s.widths))
    ensures lines == TableLines(headers, rows, s, ch) && lines != [] && AllWide(lines, TableWidth(s))
  {
    var head := RenderHead(headers, s, ch);
    var rule := RenderRule(s, ch.h, ch.ml, ch.mm, ch.mr);
    var bottom := RenderRule(s, ch.h, ch.bl, ch.bm, ch.br);
    var body := RenderBody(rows, s, rule, bottom);
    lines := head + body;
  }

  /** Every line of every row is in the table, in row order below the header. */
  lemma RowStandsAt(headers: seq<Text>, rows: seq<seq<Cell>>, s: Style, ch: Chars, r: nat, k: nat)
    requires ValidStyle(s) && |headers| == |s.widths| && forall q | 0 <= q < |rows| :: |rows[q]| <= |s.widths|
    requires r < |rows| && k < LineCount(rows[r])
    ensures var blocks := Blocks(rows, s, |rows|);
            |blocks| == |rows| &&
            var at := HeaderHeight(ShownHeaders(headers, s.compact)) + 2 + BlockStart(blocks, r) + k;
               at < |TableLines(headers, rows, s, ch)| && TableLines(headers, rows, s, ch)[at] == RowLine(rows[r], k, s)
  {
    var rule, bottom := RuleOf(s, ch.h, ch.ml, ch.mm, ch.mr), RuleOf(s, ch.h, ch.bl, ch.bm, ch.br);
    var head, body := Head(headers, s, ch), Body(rows, s, rule, bottom);
    HeadLength(headers, s, ch);
    BodyAt(rows, s, rule, bottom, r, k);
    AfterHead(head, body, BlockStart(Blocks(rows, s, |rows|), r) + k);
    assert TableLines(headers, rows, s, ch) == head + body;
  }

  /** The top rule, the header lines and the rule below them open the table. */
  lemma HeadStandsAt(headers: seq<Text>, rows: seq<seq<Cell>>, s: Style, ch: Chars, k: nat)
    requires ValidStyle(s) && |headers| == |s.widths| && forall q | 0 <= q < |rows| :: |rows[q]| <= |s.widths|
    requires k < HeaderHeight(ShownHeaders(headers, s.compact))
    ensures var h := HeaderHeight(ShownHeaders(headers, s.compact));
            var lines := TableLines(headers, rows, s, ch);
            && h + 2 <= |lines| && lines[0] == RuleOf(s, ch.h, ch.tl, ch.tm, ch.tr)
            && lines[1 + k] == BarredLine(HeaderTexts(ShownHeaders(headers, s.compact), k, s, |headers|), s)
            && lines[h + 1] == RuleOf(s, ch.h, ch.ml, ch.mm, ch.mr)
  {
    HeadAt(headers, s, ch, k);
    var head := Head(headers, s, ch);
    assert head <= TableLines(headers, rows, s, ch);
  }

  /** A rule stands below each row's lines, and the bottom one ends the table. */
  lemma RuleStandsAt(headers: seq<Text>, rows: seq<seq<Cell>>, s: Style, ch: Chars, r: nat)
    requires ValidStyle(s) && |headers| == |s.widths| && forall q | 0 <= q < |rows| :: |rows[q]| <= |s.widths|
    requires r < |rows|
    ensures var blocks := Blocks(rows, s, |rows|);
            |blocks| == |rows| &&
            var end := HeaderHeight(ShownHeaders(headers, s.compact)) + 1 + BlockStart(blocks, r + 1);
            var lines := TableLines(headers, rows, s, ch);
            && end < |lines| && (r + 1 == |rows| ==> end == |lines| - 1)
            && lines[end] == if r + 1 < |rows| then RuleOf(s, ch.h, ch.ml, ch.mm, ch.mr) else RuleOf(s, ch.h, ch.bl, ch.bm, ch.br)
  {
    var rule, bottom := RuleOf(s, ch.h, ch.ml, ch.mm, ch.mr), RuleOf(s, ch.h, ch.bl, ch.bm, ch.br);
    var head, body := Head(headers, s, ch), Body(rows, s, rule, bottom);
    var blocks := Blocks(rows, s, |rows|);
    BlockOf(rows, s, |rows|, r);
    HeadLength(headers, s, ch);
    RuleEndsBlock(blocks, rule, bottom, |rows|, r);
    AfterHead(head, body, BlockStart(blocks, r + 1) - 1);
    assert TableLines(headers, rows, s, ch) == head + body;
  }

  lemma HeadAt(headers: seq<Text>, s: Style, ch: Chars, k: nat)
    requires ValidStyle(s) && |headers| == |s.widths| && k < HeaderHeight(ShownHeaders(headers, s.compact))
    ensures var h := HeaderHeight(ShownHeaders(headers, s.compact));
            var head := Head(headers, s, ch);
            && |head| == h + 2 && head[0] == RuleOf(s, ch.h, ch.tl, ch.tm, ch.tr)
            && head[1 + k] == BarredLine(HeaderTexts(ShownHeaders(headers, s.compact), k, s, |headers|), s)
            && head[h + 1] == RuleOf(s, ch.h, ch.ml, ch.mm, ch.mr)
  {
    var shown := ShownHeaders(headers, s.compact);
    HeadLength(headers, s, ch);
    HeaderLinesLength(shown, s, HeaderHeight(shown));
    HeaderLineAt(shown, s, HeaderHeight(shown), k);
  }

  lemma {:induction false} HeaderLineAt(shown: seq<Text>, s: Style, n: nat, k: nat)
    requires ValidStyle(s) && |shown| <= |s.widths| && k < n
    ensures |HeaderLines(shown, s, n)| == n && HeaderLines(shown, s, n)[k] == BarredLine(HeaderTexts(shown, k, s, |shown|), s)
  {
    HeaderLinesLength(shown, s, n - 1);
    if k < n - 1 {
      HeaderLineAt(shown, s, n - 1, k);
    }
  }

  /** A rule ends each block, the last one's another. */
  lemma {:induction false} RuleEndsBlock(blocks: seq<seq<Text>>, rule: Text, last: Text, n: nat, r: nat)
    requires r < n <= |blocks|
    ensures 0 < BlockStart(blocks, r + 1) <= |Stack(blocks, rule, last, n)| == BlockStart(blocks, n)
    ensures Stack(blocks, rule, last, n)[BlockStart(blocks, r + 1) - 1] == if r + 1 < |blocks| then rule else last
  {
    StackLength(blocks, rule, last, n);
    StackLength(blocks, rule, last, n - 1);
    if r < n - 1 {
      RuleEndsBlock(blocks, rule, last, n - 1, r);
      InFront(Stack(blocks, rule, last, n - 1), blocks[n - 1], [if n < |blocks| then rule else last], BlockStart(blocks, r + 1) - 1);
    }
  }

  lemma AfterHead(head: seq<Text>, body: seq<Text>, k: nat)
    requires k < |body|
    ensures (head + body)[|head| + k] == body[k]
  {}

  lemma HeadLength(headers: seq<Text>, s: Style, ch: Chars)
    requires ValidStyle(s) && |headers| == |s.widths|
    ensures |Head(headers, s, ch)| == HeaderHeight(ShownHeaders(headers, s.compact)) + 2
  {
    var shown := ShownHeaders(headers, s.compact);
    HeaderLinesLength(shown, s, HeaderHeight(shown));
  }

  lemma BodyAt(rows: seq<seq<Cell>>, s: Style, rule: Text, bottom: Text, r: nat, k: nat)
    requires ValidStyle(s) && forall q | 0 <= q < |rows| :: |rows[q]| <= |s.widths|
    requires r < |rows| && k < LineCount(rows[r])
    ensures var blocks := Blocks(rows, s, |rows|);
            && |blocks| == |rows|
            && BlockStart(blocks, r) + k < |Body(rows, s, rule, bottom)|
            && Body(rows, s, rule, bottom)[BlockStart(blocks, r) + k] == RowLine(rows[r], k, s)
  {
    BlockOf(rows, s, |rows|, r);
    LineAt(rows[r], s, LineCount(rows[r]), k);
    BlockStandsAt(Blocks(rows, s, |rows|), rule, bottom, |rows|, r, k);
  }

  /** On its line a cell's padded text starts right after the columns before it. */
  lemma CellStandsAt(row: seq<Cell>, k: nat, s: Style, i: nat)
    requires ValidStyle(s) && |row| <= |s.widths| && i < |row|
    ensures var texts := CellTexts(row, k, s.widths, s.numeric, s.compact, |row|);
            var before := Joined(texts, s.widths, s.right, Styled([Visible(s.v)], s.color), i);
            var cell := PadCell(CellText(row[i], k, s.widths[i], i in s.numeric, s.compact), s.widths[i], s.right[i]);
            before + [Visible(' ')] + cell <= RowLine(row, k, s)
  {
    var texts := CellTexts(row, k, s.widths, s.numeric, s.compact, |row|);
    TextAt(row, k, s.widths, s.numeric, s.compact, |row|, i);
    JoinedStartsWith(texts, s.widths, s.right, Styled([Visible(s.v)], s.color), |s.widths|, i);
  }

  lemma {:induction false} LineAt(row: seq<Cell>, s: Style, n: nat, k: nat)
    requires ValidStyle(s) && |row| <= |s.widths| && k < n
    ensures |RowLines(row, s, n)| == n && RowLines(row, s, n)[k] == RowLine(row, k, s)
  {
    if n > 1 {
      LineAt(row, s, n - 1, if k < n - 1 then k else 0);
    }
  }

  lemma {:induction false} HeaderLinesLength(shown: seq<Text>, s: Style, n: nat)
    requires ValidStyle(s) && |shown| <= |s.widths|
    ensures |HeaderLines(shown, s, n)| == n
  {
    if n > 0 {
      HeaderLinesLength(shown, s, n - 1);
    }
  }

  lemma {:induction false} TextAt(row: seq<Cell>, k: nat, widths: seq<int>, numeric: seq<int>, compact: bool, n: nat, i: nat)
    requires i < n <= |row| <= |widths| && AllPositive(widths)
    ensures |CellTexts(row, k, widths, numeric, compact, n)| == n
    ensures CellTexts(row, k, widths, numeric, compact, n)[i] == CellText(row[i], k, widths[i], i in numeric, compact)
  {
    if n > 1 {
      TextAt(row, k, widths, numeric, compact, n - 1, if i < n - 1 then i else 0);
    }
  }

  /** Cell `i` ends a beginning of the line of the first `n` columns. */
  ghost predicate CellInJoined(texts: seq<Text>, widths: seq<int>, right: seq<bool>, bar: Text, n: nat, i: nat)
    requires i < n <= |widths| == |right|
  {
    Joined(texts, widths, right, bar, i) + [Visible(' ')] + PaddedCell(texts, widths, right, i) <= Joined(texts, widths, right, bar, n)
  }

  lemma {:induction false} JoinedStartsWith(texts: seq<Text>, widths: seq<int>, right: seq<bool>, bar: Text, n: nat, i: nat)
    requires i < n <= |widths| == |right|
    ensures CellInJoined(texts, widths, right, bar, n, i)
  {
    JoinedStep(texts, widths, right, bar, n);
    if i == n - 1 {
      CellInLine(Joined(texts, widths, right, bar, i), PaddedCell(texts, widths, right, i), bar, Joined(texts, widths, right, bar, n));
    } else {
      JoinedStartsWith(texts, widths, right, bar, n - 1, i);
      LongerStill(Joined(texts, widths, right, bar, i) + [Visible(' ')] + PaddedCell(texts, widths, right, i),
                  Joined(texts, widths, right, bar, n - 1), PaddedCell(texts, widths, right, n - 1), bar,
                  Joined(texts, widths, right, bar, n));
    }
  }

  lemma JoinedStep(texts: seq<Text>, widths: seq<int>, right: seq<bool>, bar: Text, n: nat)
    requires 0 < n <= |widths| == |right|
    ensures Joined(texts, widths, right, bar, n)
         == Joined(texts, widths, right, bar, n - 1) + [Visible(' ')] + PaddedCell(texts, widths, right, n - 1) + [Visible(' ')] + bar
  {}

  lemma CellInLine(front: Text, cell: Text, bar: Text, line: Text)
    requires line == front + [Visible(' ')] + cell + [Visible(' ')] + bar
    ensures front + [Visible(' ')] + cell <= line
  {}

  lemma LongerStill(p: Text, front: Text, cell: Text, bar: Text, line: Text)
    requires p <= front && line == front + [Visible(' ')] + cell + [Visible(' ')] + bar
    ensures p <= line
  {}

  /******* Dates *******/

  /** The first visible character, if any. */
  function FirstVisible(t: Text): Option<char> {
    if t == [] then None else if t[0].Visible? then Some(t[0].c) else FirstVisible(t[1..])
  }

  /** A date cell that opens with a warning glyph. */
  predicate Flagged(t: Text) { FirstVisible(t) == Some('\U{26A0}') || FirstVisible(t) == Some('!') }

  datatype Scanned = Clean | Anomalous | Short

  /** What looking for a flagged data row from row `r` on finds first. */
  function Scan(rows: seq<seq<Cell>>, data: seq<bool>, date: nat, r: nat): Scanned
    requires |data| == |rows| && r <= |rows|
    decreases |rows| - r
  {
    if r == |rows| then Clean
    else if !data[r] then Scan(rows, data, date, r + 1)
    else if |rows[r]| <= date then Short
    else if Flagged(rows[r][date].text) then Anomalous
    else Scan(rows, data, date, r + 1)
  }

  /** The first visible glyph is a warning one. */
  ghost predicate OpensFlagged(t: Text) {
    exists p: nat :: OpensFlaggedAt(t, p)
  }

  ghost predicate OpensFlaggedAt(t: Text, p: nat) {
    p < |t| && (t[p] == Visible('\U{26A0}') || t[p] == Visible('!')) && forall q | 0 <= q < p :: t[q].Escape?
  }

  lemma {:induction false} FlaggedIs(t: Text)
    ensures Flagged(t) <==> OpensFlagged(t)
  {
    if t != [] && t[0].Escape? {
      FlaggedIs(t[1..]);
      forall p: nat ensures OpensFlaggedAt(t, p + 1) <==> OpensFlaggedAt(t[1..], p) {
        assert forall q | 0 < q < |t| :: t[q] == t[1..][q - 1];
        assert forall q | 0 <= q < |t| - 1 :: t[1..][q] == t[q + 1];
      }
      if OpensFlagged(t) {
        var p: nat :| OpensFlaggedAt(t, p);
        assert p > 0 && OpensFlaggedAt(t[1..], p - 1);
      }
      if OpensFlagged(t[1..]) {
        var p: nat :| OpensFlaggedAt(t[1..], p);
        assert OpensFlaggedAt(t, p + 1);
      }
    } else if t != [] {
      assert t[0] == Visible(t[0].c);
      assert Flagged(t) ==> OpensFlaggedAt(t, 0);
    }
  }

  /** Data row `q` is the first whose date cell is missing or flagged; which of the two, `short` says. */
  ghost predicate StopsAt(rows: seq<seq<Cell>>, data: seq<bool>, date: nat, r: nat, q: int, short: bool)
    requires |data| == |rows|
  {
    && r <= q < |rows| && data[q] && (if short then |rows[q]| <= date else |rows[q]| > date && OpensFlagged(rows[q][date].text))
    && forall p | r <= p < q && data[p] :: |rows[p]| > date && !OpensFlagged(rows[p][date].text)
  }

  lemma {:induction false} ScanIs(rows: seq<seq<Cell>>, data: seq<bool>, date: nat, r: nat)
    requires |data| == |rows| && r <= |rows|
    ensures Scan(rows, data, date, r).Short? <==> exists q :: StopsAt(rows, data, date, r, q, true)
    ensures Scan(rows, data, date, r).Anomalous? <==> exists q :: StopsAt(rows, data, date, r, q, false)
    decreases |rows| - r
  {
    if r < |rows| {
      if |rows[r]| > date { FlaggedIs(rows[r][date].text); }
      if !data[r] || (|rows[r]| > date && !Flagged(rows[r][date].text)) {
        ScanIs(rows, data, date, r + 1);
        StopsLater(rows, data, date, r, r + 1, true);
        StopsLater(rows, data, date, r, r + 1, false);
      } else {
        assert StopsAt(rows, data, date, r, r, |rows[r]| <= date);
        assert forall q | r < q < |rows| :: data[r] && !StopsAt(rows, data, date, r, q, true) && !StopsAt(rows, data, date, r, q, false);
      }
    }
  }

  lemma StopsLater(rows: seq<seq<Cell>>, data: seq<bool>, date: nat, r: nat, next: nat, short: bool)
    requires |data| == |rows| && r < |rows| && next == r + 1
    requires data[r] ==> |rows[r]| > date && !OpensFlagged(rows[r][date].text)
    ensures (exists q :: StopsAt(rows, data, date, r, q, short)) <==> exists q :: StopsAt(rows, data, date, next, q, short)
  {
    forall q ensures StopsAt(rows, data, date, r, q, short) <==> q != r && StopsAt(rows, data, date, next, q, short) {
      if q != r && StopsAt(rows, data, date, next, q, short) {
        forall p | r <= p < q && data[p] ensures |rows[p]| > date && !OpensFlagged(rows[p][date].text) {}
      }
    }
  }

  method ScanRows(rows: seq<seq<Cell>>, data: seq<bool>, date: nat) returns (found: Scanned)
    requires |data| == |rows|
    ensures found == Scan(rows, data, date, 0)
  {
    for r := 0 to |rows|
      invariant Scan(rows, data, date, 0) == Scan(rows, data, date, r)
    {
      if !data[r] {
        continue;
      }
      if |rows[r]| <= date {
        return Short;
      }
      if Flagged(rows[r][date].text) {
        return Anomalous;
      }
    }
    return Clean;
  }

  predicate IsDigit(g: Glyph, digit: char -> bool) { g.Visible? && digit(g.c) }

  /** `YYYY-MM-DD`, with at most one line break after it. */
  predicate IsDate(t: Text, digit: char -> bool) {
    && (|t| == 10 || (|t| == 11 && t[10] == Newline()))
    && t[4] == t[7] == Visible('-')
    && forall i | 0 <= i < 10 && i != 4 && i != 7 :: IsDigit(t[i], digit)
  }

  /** The year on its own line. */
  function SplitDate(t: Text, digit: char -> bool): Text { if IsDate(t, digit) then t[..4] + [Newline()] + t[5..] else t }

  function ShownRow(row: seq<Cell>, date: Option<int>, split: bool, digit: char -> bool): seq<Cell> {
    seq(|row|, i requires 0 <= i < |row| =>
      if split && date == Some(i) then row[i].(text := SplitDate(row[i].text, digit)) else row[i])
  }

  /** Four digits, two and two, with dashes between, and nothing behind them but a line break. */
  ghost predicate ReadsAsDate(t: Text, digit: char -> bool) {
    && 10 <= |t| <= 11 && (|t| == 11 ==> t[10] == Visible('\n'))
    && forall i | 0 <= i < 10 :: t[i].Visible? && if i == 4 || i == 7 then t[i].c == '-' else digit(t[i].c)
  }

  /** Only dates of the date column are broken, behind the year, and only where the table splits them. */
  lemma ShownIs(rows: seq<seq<Cell>>, date: Option<int>, split: bool, digit: char -> bool, r: nat, i: nat)
    requires r < |rows| && i < |rows[r]|
    ensures var shown := ShownRows(rows, date, split, digit);
            var was := rows[r][i];
            && |shown| == |rows| && |shown[r]| == |rows[r]|
            && shown[r][i] == if split && date == Some(i) && ReadsAsDate(was.text, digit)
                              then Cell(was.text[..4] + [Visible('\n')] + was.text[5..], was.styled) else was
  {
    var t := rows[r][i].text;
    if IsDate(t, digit) {
      forall k | 0 <= k < 10 ensures t[k].Visible? && if k == 4 || k == 7 then t[k].c == '-' else digit(t[k].c) {
        assert k != 4 && k != 7 ==> IsDigit(t[k], digit);
      }
    }
    if ReadsAsDate(t, digit) {
      assert t[4].c == '-' && t[7].c == '-';
      assert forall k | 0 <= k < 10 && k != 4 && k != 7 :: IsDigit(t[k], digit);
    }
  }

  function ShownRows(rows: seq<seq<Cell>>, date: Option<int>, split: bool, digit: char -> bool): seq<seq<Cell>> {
    seq(|rows|, r requires 0 <= r < |rows| => ShownRow(rows[r], date, split, digit))
  }

  /******* The layout *******/

  datatype Outcome = Table(lines: seq<Text>) | SurplusCell | ShortDataRow

  /** The escape hatch: the droppable column goes when even the floors do not fit. */
  predicate Drops(c: Columns, droppable: Option<nat>, narrowText: int, term: int)
    requires ValidSizes(c)
  {
    droppable.Some? && droppable.value != c.expand && MinTotal(c, narrowText) > term
  }

  function Kept(c: Columns, droppable: Option<nat>, narrowText: int, term: int): Columns
    requires ValidSizes(c)
  {
    if Drops(c, droppable, narrowText, term) then Dropped(c, droppable.value) else c
  }

  function KeptRows(c: Columns, rows: seq<seq<Cell>>, droppable: Option<nat>, narrowText: int, term: int): seq<seq<Cell>>
    requires ValidSizes(c)
  {
    if Drops(c, droppable, narrowText, term) then DroppedRows(rows, droppable.value) else rows
  }

  ghost predicate ValidDate(c: Columns) { c.date.Some? ==> 0 <= c.date.value < |c.headers| }

  method Narrowed(c: Columns, rows: seq<seq<Cell>>, droppable: Option<nat>, narrowText: int, term: int)
    returns (c': Columns, rows': seq<seq<Cell>>)
    requires ValidColumns(c) && ValidDate(c) && (droppable.Some? ==> droppable.value < |c.headers|)
    ensures c' == Kept(c, droppable, narrowText, term) && rows' == KeptRows(c, rows, droppable, narrowText, term)
    ensures ValidColumns(c') && ValidDate(c') && |rows'| == |rows|
    ensures if droppable.Some? && droppable.value != c.expand && MinTotal(c, narrowText) > term then |c'.headers| == |c.headers| - 1
            else c' == c && rows' == rows
  {
    c', rows' := c, rows;
    if droppable.Some? && droppable.value != c.expand && MinTotal(c, narrowText) > term {
      DroppedKeepsColumns(c, droppable.value);
      c' := DropFromColumns(c, droppable.value);
      rows' := [];
      for r := 0 to |rows|
        invariant |rows'| == r && forall q | 0 <= q < r :: rows'[q] == Without(rows[q], droppable.value)
      {
        rows' := rows' + [Without(rows[r], droppable.value)];
      }
      assert rows' == DroppedRows(rows, droppable.value);
    }
  }

  /** The date column is split in compact mode, unless some data row is flagged. */
  function Splits(c: Columns, rows: seq<seq<Cell>>, data: seq<bool>, compact: bool): bool
    requires |data| == |rows| && (c.date.Some? ==> 0 <= c.date.value)
  {
    compact && c.date.Some? && Scan(rows, data, c.date.value, 0) != Anomalous
  }

  /** Dates are split in compact mode unless, before any data row without a date cell, one is flagged. */
  lemma SplitsIff(c: Columns, rows: seq<seq<Cell>>, data: seq<bool>, compact: bool)
    requires |data| == |rows| && (c.date.Some? ==> 0 <= c.date.value)
    ensures Splits(c, rows, data, compact) <==>
              compact && c.date.Some? && !exists q :: StopsAt(rows, data, c.date.value, 0, q, false)
  {
    if c.date.Some? { ScanIs(rows, data, c.date.value, 0); }
  }

  /** The rendered table of the kept columns, at some widths that fit the terminal. */
  ghost predicate Renders(c: Columns, rows: seq<seq<Cell>>, data: seq<bool>, narrowText: int, wideText: int, term: int,
                          forced: bool, digit: char -> bool, ch: Chars, color: bool, widths: seq<int>, compact: bool, lines: seq<Text>)
    requires ValidColumns(c) && ValidDate(c) && |data| == |rows| && forall r | 0 <= r < |rows| :: |rows[r]| <= |c.headers|
  {
    && FitsTerminal(c, ContentFor(c.headers, rows), narrowText, wideText, term, forced, widths, compact)
    && var s := Style(widths, c.right, c.numeric, compact, ch.v, color);
       lines == TableLines(c.headers, ShownRows(rows, c.date, Splits(c, rows, data, compact), digit), s, ch)
       && AllWide(lines, TableWidth(s))
  }

  /**
  The whole layout: the table of the kept columns and rows, in the mode and at the widths the terminal allows.
  Its lines have one visible width, no more than the terminal's or the least possible, and exactly that in
  forced compact mode.
  */
  method Layout(c: Columns, rows: seq<seq<Cell>>, data: seq<bool>, droppable: Option<nat>, narrowText: int, wideText: int,
                term: int, forced: bool, digit: char -> bool, ch: Chars, color: bool)
    returns (out: Outcome)
    requires ValidColumns(c) && ValidDate(c) && |data| == |rows| && 0 < narrowText
    requires droppable.Some? ==> droppable.value < |c.headers|
    ensures ValidColumns(Kept(c, droppable, narrowText, term)) && ValidDate(Kept(c, droppable, narrowText, term))
    ensures var c', rows' := Kept(c, droppable, narrowText, term), KeptRows(c, rows, droppable, narrowText, term);
            && |rows'| == |rows|
            && (out.SurplusCell? <==> HasSurplus(rows', |c'.headers|))
            && (out.ShortDataRow? <==>
                !HasSurplus(rows', |c'.headers|) && c'.date.Some? && Scan(rows', data, c'.date.value, 0).Short?)
            && (out.Table? ==> !HasSurplus(rows', |c'.headers|) && exists widths, compact ::
                  Renders(c', rows', data, narrowText, wideText, term, forced, digit, ch, color, widths, compact, out.lines))
    ensures out.Table? ==>
              && out.lines != [] && AllWide(out.lines, Width(out.lines[0]))
              && Width(out.lines[0]) <= Max(term, MinTotal(Kept(c, droppable, narrowText, term), narrowText))
              && (forced ==> Width(out.lines[0]) == Max(term, MinTotal(Kept(c, droppable, narrowText, term), narrowText)))
  {
    var c', rows' := Narrowed(c, rows, droppable, narrowText, term);
    out := LayoutKept(c', rows', data, narrowText, wideText, term, forced, digit, ch, color);
  }

  method LayoutKept(c: Columns, rows: seq<seq<Cell>>, data: seq<bool>, narrowText: int, wideText: int,
                    term: int, forced: bool, digit: char -> bool, ch: Chars, color: bool)
    returns (out: Outcome)
    requires ValidColumns(c) && ValidDate(c) && |data| == |rows| && 0 < narrowText
    ensures out.SurplusCell? <==> HasSurplus(rows, |c.headers|)
    ensures out.ShortDataRow? <==> !HasSurplus(rows, |c.headers|) && c.date.Some? && Scan(rows, data, c.date.value, 0).Short?
    ensures out.Table? ==> !HasSurplus(rows, |c.headers|) && exists widths, compact ::
              Renders(c, rows, data, narrowText, wideText, term, forced, digit, ch, color, widths, compact, out.lines)
    ensures out.Table? ==>
              && out.lines != [] && AllWide(out.lines, Width(out.lines[0]))
              && Width(out.lines[0]) <= Max(term, MinTotal(c, narrowText))
              && (forced ==> Width(out.lines[0]) == Max(term, MinTotal(c, narrowText)))
  {
    var content := ContentWidths(c.headers, rows);
    if content.None? {
      return SurplusCell;
    }
    forall i: nat | i < |c.headers| ensures 0 <= content.value[i] { ContentHolds(c.headers[i], rows, i); }
    var widths, compact := FitWidths(c, content.value, narrowText, wideText, term, forced);
    var anomalous := false;
    if c.date.Some? {
      var found := ScanRows(rows, data, c.date.value);
      if found.Short? {
        return ShortDataRow;
      }
      anomalous := found.Anomalous?;
    }
    var lines := Draw(c, rows, compact && c.date.Some? && !anomalous, widths, compact, digit, ch, color);
    assert Renders(c, rows, data, narrowText, wideText, term, forced, digit, ch, color, widths, compact, lines);
    RendersWithin(c, rows, data, narrowText, wideText, term, forced, digit, ch, color, widths, compact, lines);
    out := Table(lines);
  }

  lemma RendersWithin(c: Columns, rows: seq<seq<Cell>>, data: seq<bool>, narrowText: int, wideText: int, term: int, forced: bool,
                      digit: char -> bool, ch: Chars, color: bool, widths: seq<int>, compact: bool, lines: seq<Text>)
    requires ValidColumns(c) && ValidDate(c) && |data| == |rows| && (forall r | 0 <= r < |rows| :: |rows[r]| <= |c.headers|) && lines != []
    requires Renders(c, rows, data, narrowText, wideText, term, forced, digit, ch, color, widths, compact, lines)
    ensures AllWide(lines, Width(lines[0])) && Width(lines[0]) <= Max(term, MinTotal(c, narrowText))
    ensures forced ==> Width(lines[0]) == Max(term, MinTotal(c, narrowText))
  {}

  /** The table at the widths found. */
  method Draw(c: Columns, rows: seq<seq<Cell>>, split: bool, widths: seq<int>, compact: bool, digit: char -> bool, ch: Chars, color: bool)
    returns (lines: seq<Text>)
    requires ValidColumns(c) && |widths| == |c.headers| && AllPositive(widths) && (split ==> compact)
    requires !HasSurplus(rows, |c.headers|) && (!compact ==> forall i | 0 <= i < |widths| :: ContentFor(c.headers, rows)[i] <= widths[i])
    ensures var s := Style(widths, c.right, c.numeric, compact, ch.v, color);
            && (forall r | 0 <= r < |rows| :: |rows[r]| <= |c.headers|)
            && lines == TableLines(c.headers, ShownRows(rows, c.date, split, digit), s, ch)
            && lines != [] && AllWide(lines, TableWidth(s))
  {
    var shown := ShownRows(rows, c.date, split, digit);
    var s := Style(widths, c.right, c.numeric, compact, ch.v, color);
    if !compact {
      ContentFits(c.headers, rows, shown, widths, c.date, digit);
    }
    lines := RenderTable(c.headers, shown, s, ch);
  }

  /** In wide mode every header and cell line fits its column. */
  lemma ContentFits(headers: seq<Text>, rows: seq<seq<Cell>>, shown: seq<seq<Cell>>, widths: seq<int>, date: Option<int>, digit: char -> bool)
    requires !HasSurplus(rows, |headers|) && |widths| == |headers| && shown == ShownRows(rows, date, false, digit)
    requires forall i | 0 <= i < |headers| :: ContentFor(headers, rows)[i] <= widths[i]
    ensures forall r | 0 <= r < |shown| :: LinesFit(shown[r], widths)
    ensures forall i | 0 <= i < |headers| :: |headers[i]| <= widths[i]
  {
    forall i: nat | i < |headers|
      ensures |headers[i]| <= widths[i] && forall r | 0 <= r < |rows| :: CellWidth(rows[r], i) <= widths[i]
    {
      ContentHolds(headers[i], rows, i);
      assert ContentFor(headers, rows)[i] <= widths[i];
    }
    forall r | 0 <= r < |shown| ensures LinesFit(shown[r], widths) {
      assert shown[r] == rows[r] && |rows[r]| <= |headers|;
      forall i, k: nat | 0 <= i < |rows[r]| ensures Width(LineOf(rows[r][i].text, k)) <= widths[i] {
        LineFits(rows[r][i].text, k);
        assert CellWidth(rows[r], i) <= widths[i];
      }
    }
  }
}
