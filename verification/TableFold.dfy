/**
  numastat's display_table: a table too wide for the screen is folded into sections, each with the left header
  columns and as many further data columns as fit.
 */
module TableFold {

  /** What is known about a row or column: data was seen, some of it not zero, or it is to be shown anyway. */
  datatype Flags = Flags(seen: bool, nonZero: bool, always: bool)

  datatype Table = Table(
    headerRows: nat, headerCols: nat,
    rowMap: seq<nat>,                  // the order in which rows are displayed
    rows: seq<Flags>, cols: seq<Flags>, width: seq<nat>,
    unseenRows: bool, unseenCols: bool, zeroRows: bool, zeroCols: bool,
    screen: int)
  {
    /** Every table has a header row, and the map permutes the rows, so some row is always displayed. */
    ghost predicate Valid() {
      && headerCols <= |cols| == |width|
      && (forall i :: 0 <= i < |rowMap| ==> rowMap[i] < |rows|)
      && exists i :: 0 <= i < |rowMap| && rowMap[i] < headerRows
    }

    predicate ShowCol(c: nat)
      requires c < |cols|
    {
      cols[c].always || ((unseenCols || cols[c].seen) && (zeroCols || cols[c].nonZero))
    }

    predicate ShowRow(r: nat)
      requires r < |rows|
    {
      r < headerRows || rows[r].always || ((unseenRows || rows[r].seen) && (zeroRows || rows[r].nonZero))
    }
  }

  /** The cells of one line, left to right. */
  datatype Line = Line(row: nat, cells: seq<nat>)

  /** The data columns first..end, and the lines printed for them. */
  datatype Section = Section(first: nat, end: nat, lines: seq<Line>)

  /** The left header columns. */
  function HeaderCells(n: nat): (s: seq<nat>)
    ensures |s| == n && forall i :: 0 <= i < n ==> s[i] == i
  {
    if n == 0 then [] else HeaderCells(n - 1) + [n - 1]
  }

  /** The visible columns from a up to b, in order. */
  function Shown(t: Table, a: nat, b: nat): (s: seq<nat>)
    requires a <= b <= |t.cols|
  {
    if a == b then [] else Shown(t, a, b - 1) + if t.ShowCol(b - 1) then [b - 1] else []
  }

  predicate HaveWidths(t: Table, cells: seq<nat>) {
    forall i :: 0 <= i < |cells| ==> cells[i] < |t.width|
  }

  function Width(t: Table, cells: seq<nat>): nat
    requires HaveWidths(t, cells)
  {
    if cells == [] then 0 else Width(t, cells[..|cells| - 1]) + t.width[cells[|cells| - 1]]
  }

  lemma {:induction false} ShownBelow(t: Table, a: nat, b: nat)
    requires a <= b <= |t.cols|
    ensures forall i :: 0 <= i < |Shown(t, a, b)| ==> a <= Shown(t, a, b)[i] < b && t.ShowCol(Shown(t, a, b)[i])
    ensures forall i, j :: 0 <= i < j < |Shown(t, a, b)| ==> Shown(t, a, b)[i] < Shown(t, a, b)[j]
  {
    hide Table.ShowCol;
    if a < b { ShownBelow(t, a, b - 1); }
  }

  lemma {:induction false} ShownComplete(t: Table, a: nat, b: nat, c: nat)
    requires a <= c < b <= |t.cols| && t.ShowCol(c)
    ensures c in Shown(t, a, b)
  {
    if c < b - 1 { ShownComplete(t, a, b - 1, c); }
  }

  lemma {:induction false} ShownSplit(t: Table, a: nat, b: nat, c: nat)
    requires a <= b <= c <= |t.cols|
    ensures Shown(t, a, c) == Shown(t, a, b) + Shown(t, b, c)
  {
    if b < c { ShownSplit(t, a, b, c - 1); }
  }

  // ----- one section -----

  /** Where the section that has reached column col at line width w ends: behind the last column, or in front of
      the first column, visible or not, that would not fit. */
  function End(t: Table, col: nat, w: nat): (e: nat)
    requires col < |t.cols| == |t.width|
    ensures col < e <= |t.cols|
    decreases |t.cols| - col
  {
    var w' := if t.ShowCol(col) then w + t.width[col] else w;
    if col + 1 >= |t.cols| || w' + t.width[col + 1] > t.screen then col + 1 else End(t, col + 1, w')
  }

  function HeaderWidth(t: Table): nat
    requires t.headerCols <= |t.width|
  {
    Width(t, HeaderCells(t.headerCols))
  }

  function LinesFrom(t: Table, first: nat, end: nat, k: nat): seq<Line>
    requires first <= end <= |t.cols| && k <= |t.rowMap| && forall i :: 0 <= i < |t.rowMap| ==> t.rowMap[i] < |t.rows|
  {
    if k == 0 then []
    else
      LinesFrom(t, first, end, k - 1)
      + if t.ShowRow(t.rowMap[k - 1])
        then [Line(t.rowMap[k - 1], HeaderCells(t.headerCols) + Shown(t, first, end))] else []
  }

  /** The sections for the data columns from col on. */
  function Fold(t: Table, col: nat): (ss: seq<Section>)
    requires t.Valid() && col <= |t.cols|
    decreases |t.cols| - col
  {
    if col == |t.cols| then []
    else if !t.ShowCol(col) then Fold(t, col + 1)
    else
      var e := End(t, col, HeaderWidth(t));
      [Section(col, e, LinesFrom(t, col, e, |t.rowMap|))] + Fold(t, e)
  }

  // ----- what the folding does -----

  /** The data columns of the sections, one section after the other. */
  function Columns(t: Table, ss: seq<Section>): seq<nat>
    requires forall k :: 0 <= k < |ss| ==> ss[k].first <= ss[k].end <= |t.cols|
  {
    if ss == [] then [] else Shown(t, ss[0].first, ss[0].end) + Columns(t, ss[1..])
  }

  /** Every visible data column is shown exactly once, in order, and no hidden one is. */
  lemma {:induction false} FoldShowsAll(t: Table, col: nat)
    requires t.Valid() && col <= |t.cols|
    ensures forall k :: 0 <= k < |Fold(t, col)| ==> Fold(t, col)[k].first < Fold(t, col)[k].end <= |t.cols|
    ensures Columns(t, Fold(t, col)) == Shown(t, col, |t.cols|)
    decreases |t.cols| - col
  {
    if col < |t.cols| {
      if !t.ShowCol(col) {
        FoldShowsAll(t, col + 1);
        ShownSplit(t, col, col + 1, |t.cols|);
        assert Shown(t, col, col + 1) == Shown(t, col, col) + [];
      } else {
        var e := End(t, col, HeaderWidth(t));
        FoldShowsAll(t, e);
        ShownSplit(t, col, e, |t.cols|);
        assert Fold(t, col)[1..] == Fold(t, e);
      }
    }
  }

  /** Every line of a section has the header columns and then the section's visible columns; the lines are those of
      the rows to be shown, in the order of the map, whatever the section. */
  lemma {:induction false} SectionLines(t: Table, first: nat, end: nat, k: nat)
    requires t.Valid() && first <= end <= |t.cols| && k <= |t.rowMap|
    ensures forall i :: 0 <= i < |LinesFrom(t, first, end, k)| ==>
              var l := LinesFrom(t, first, end, k)[i];
              l.cells == HeaderCells(t.headerCols) + Shown(t, first, end) && l.row < |t.rows| && t.ShowRow(l.row)
    ensures forall i :: 0 <= i < k && t.ShowRow(t.rowMap[i]) ==>
              Line(t.rowMap[i], HeaderCells(t.headerCols) + Shown(t, first, end)) in LinesFrom(t, first, end, k)
  {
    if k > 0 { SectionLines(t, first, end, k - 1); }
  }

  function Max(a: int, b: int): int {
    if a > b then a else b
  }

  lemma {:induction false} WidthConcat(t: Table, a: seq<nat>, b: seq<nat>)
    requires HaveWidths(t, a) && HaveWidths(t, b)
    ensures Width(t, a + b) == Width(t, a) + Width(t, b)
  {
    if b == [] {
      assert a + b == a;
    } else {
      assert (a + b)[..|a + b| - 1] == a + b[..|b| - 1];
      WidthConcat(t, a, b[..|b| - 1]);
    }
  }

  lemma ShownFirst(t: Table, a: nat, b: nat)
    requires a < b <= |t.cols|
    ensures Shown(t, a, b) == (if t.ShowCol(a) then [a] else []) + Shown(t, a + 1, b)
  {
    ShownSplit(t, a, a + 1, b);
    ShownOne(t, a);
    hide *;
  }

  lemma ShownOne(t: Table, a: nat)
    requires a < |t.cols|
    ensures Shown(t, a, a + 1) == if t.ShowCol(a) then [a] else []
  {
    hide Table.ShowCol;
    assert Shown(t, a, a) == [];
  }

  /** What is printed from column col on, at width w, fits the screen, or is the column col alone; and a section
      ends only where nothing is left or the next column would not fit. */
  lemma {:induction false} EndFits(t: Table, col: nat, w: nat)
    requires col < |t.cols| == |t.width|
    ensures var e := End(t, col, w);
            && HaveWidths(t, Shown(t, col, e))
            && w + Width(t, Shown(t, col, e)) <= Max(t.screen, w + if t.ShowCol(col) then t.width[col] else 0)
            && (e < |t.cols| ==> w + Width(t, Shown(t, col, e)) + t.width[e] > t.screen)
    decreases |t.cols| - col
  {
    var e := End(t, col, w);
    var w' := if t.ShowCol(col) then w + t.width[col] else w;
    WidthFirst(t, col, e);
    if e == col + 1 {
      assert Shown(t, col + 1, e) == [];
    } else {
      hide Shown, Width;
      EndFits(t, col + 1, w');
    }
  }

  lemma WidthFirst(t: Table, a: nat, b: nat)
    requires a < b <= |t.cols| == |t.width|
    ensures HaveWidths(t, Shown(t, a, b)) && HaveWidths(t, Shown(t, a + 1, b))
    ensures Width(t, Shown(t, a, b)) == (if t.ShowCol(a) then t.width[a] else 0) + Width(t, Shown(t, a + 1, b))
  {
    ShownBelow(t, a, b);
    ShownBelow(t, a + 1, b);
    ShownFirst(t, a, b);
    hide Shown;
    var head := if t.ShowCol(a) then [a] else [];
    assert head == [] || head[..|head| - 1] == [];
    assert Width(t, head) == if t.ShowCol(a) then t.width[a] else 0;
    WidthConcat(t, head, Shown(t, a + 1, b));
  }

  /** No line of a section is wider than the screen, unless the header columns and the section's first column alone
      are; and no section ends before it is full. */
  lemma SectionFits(t: Table, first: nat)
    requires t.Valid() && first < |t.cols| && t.ShowCol(first)
    ensures var e := End(t, first, HeaderWidth(t));
            var cells := HeaderCells(t.headerCols) + Shown(t, first, e);
            && HaveWidths(t, cells)
            && Width(t, cells) <= Max(t.screen, HeaderWidth(t) + t.width[first])
            && (e < |t.cols| ==> Width(t, cells) + t.width[e] > t.screen)
  {
    var e := End(t, first, HeaderWidth(t));
    EndFits(t, first, HeaderWidth(t));
    WidthConcat(t, HeaderCells(t.headerCols), Shown(t, first, e));
  }

  /** All sections of a folded table start at a visible column and end where that start makes them end. */
  lemma {:induction false} FoldSections(t: Table, col: nat, k: nat)
    requires t.Valid() && col <= |t.cols| && k < |Fold(t, col)|
    ensures var s := Fold(t, col)[k];
            && s.first < |t.cols| && t.ShowCol(s.first) && s.end == End(t, s.first, HeaderWidth(t))
            && s.lines == LinesFrom(t, s.first, s.end, |t.rowMap|)
    decreases |t.cols| - col
  {
    hide End, HeaderWidth, LinesFrom;
    if !t.ShowCol(col) {
      FoldSections(t, col + 1, k);
    } else if k > 0 {
      FoldSections(t, End(t, col, HeaderWidth(t)), k - 1);
    }
  }

  // ----- the display, in terms of flags and widths -----

  /** The row at place i of the map is to be shown: it is a header row, or is always shown, or has been seen and is not
      all zero as far as that is asked for. */
  ghost predicate RowWanted(t: Table, i: nat)
    requires t.Valid() && i < |t.rowMap|
  {
    var r := t.rowMap[i];
    || r < t.headerRows
    || t.rows[r].always
    || ((t.rows[r].seen || t.unseenRows) && (t.rows[r].nonZero || t.zeroRows))
  }

  ghost predicate ColWanted(t: Table, c: nat)
    requires c < |t.cols|
  {
    t.cols[c].always || ((t.cols[c].seen || t.unseenCols) && (t.cols[c].nonZero || t.zeroCols))
  }

  /** Strictly increasing. */
  ghost predicate Increasing(s: seq<nat>) {
    forall i, j :: 0 <= i < j < |s| ==> s[i] < s[j]
  }

  /** In every section, line j shows the row at place[j] of the map: the places go up, so the order is that of the map,
      each comes once, and they are exactly those of the rows that are wanted. */
  lemma SectionRows(t: Table, k: nat) returns (place: seq<nat>)
    requires t.Valid() && k < |Fold(t, t.headerCols)|
    ensures var lines := Fold(t, t.headerCols)[k].lines;
            && |place| == |lines| && Increasing(place)
            && (forall j :: 0 <= j < |lines| ==> place[j] < |t.rowMap| && lines[j].row == t.rowMap[place[j]])
            && forall i :: 0 <= i < |t.rowMap| ==> (i in place <==> RowWanted(t, i))
  {
    hide End, HeaderWidth, LinesFrom, RowWanted;
    FoldSections(t, t.headerCols, k);
    var s := Fold(t, t.headerCols)[k];
    place := LinePlaces(t, s.first, s.end, |t.rowMap|);
  }

  /** The places of the wanted rows among the first k of the map. */
  ghost predicate Places(t: Table, place: seq<nat>, k: nat)
    requires t.Valid() && k <= |t.rowMap|
  {
    && Increasing(place) && (forall j :: 0 <= j < |place| ==> place[j] < k)
    && forall i :: 0 <= i < k ==> (i in place <==> RowWanted(t, i))
  }

  lemma NextPlace(t: Table, place: seq<nat>, k: nat)
    requires t.Valid() && k < |t.rowMap| && Places(t, place, k)
    ensures Places(t, if RowWanted(t, k) then place + [k] else place, k + 1)
  {
    hide RowWanted, Table.Valid;
    var next := place + [k];
    assert next[|place|] == k;
    forall i | 0 <= i < k
      ensures i in next <==> i in place
    {
      if i in next {
        var j :| 0 <= j < |next| && next[j] == i;
        assert j < |place| && place[j] == i;
      }
      if i in place {
        var j :| 0 <= j < |place| && place[j] == i;
        assert next[j] == i;
      }
    }
    assert k !in place;
  }

  lemma {:induction false} LinePlaces(t: Table, first: nat, end: nat, k: nat) returns (place: seq<nat>)
    requires t.Valid() && first <= end <= |t.cols| && k <= |t.rowMap|
    ensures var lines := LinesFrom(t, first, end, k);
            && |place| == |lines| && Places(t, place, k)
            && forall j :: 0 <= j < |lines| ==> lines[j].row == t.rowMap[place[j]]
  {
    hide Shown, Places, Table.Valid;
    if k == 0 {
      place := [];
      NoPlaces(t);
    } else {
      var front := LinePlaces(t, first, end, k - 1);
      place := if RowWanted(t, k - 1) then front + [k - 1] else front;
      NextPlace(t, front, k - 1);
      PlacesBelow(t, place, k);
      LastLine(t, first, end, k - 1);
    }
  }

  lemma NoPlaces(t: Table)
    requires t.Valid()
    ensures Places(t, [], 0)
  {
  }

  lemma PlacesBelow(t: Table, place: seq<nat>, k: nat)
    requires t.Valid() && k <= |t.rowMap| && Places(t, place, k)
    ensures forall j :: 0 <= j < |place| ==> place[j] < |t.rowMap|
  {
  }

  lemma LastLine(t: Table, first: nat, end: nat, k: nat)
    requires t.Valid() && first <= end <= |t.cols| && k < |t.rowMap|
    ensures var front := LinesFrom(t, first, end, k);
            LinesFrom(t, first, end, k + 1) == front + if RowWanted(t, k)
              then [Line(t.rowMap[k], HeaderCells(t.headerCols) + Shown(t, first, end))] else []
  {
    hide Shown;
  }

  /** Every line of a section starts with the left header columns, and goes on with exactly the wanted columns between
      the section's first column and its end, from left to right. */
  lemma SectionCells(t: Table, k: nat, j: nat)
    requires t.Valid() && k < |Fold(t, t.headerCols)| && j < |Fold(t, t.headerCols)[k].lines|
    ensures var s, n := Fold(t, t.headerCols)[k], t.headerCols;
            var cells := s.lines[j].cells;
            && n <= |cells| && (forall h :: 0 <= h < n ==> cells[h] == h)
            && Increasing(cells[n..])
            && forall c :: c in cells[n..] <==> s.first <= c < s.end && c < |t.cols| && ColWanted(t, c)
  {
    hide End, HeaderWidth, LinesFrom, Shown;
    FoldSections(t, t.headerCols, k);
    FoldShowsAll(t, t.headerCols);
    var s := Fold(t, t.headerCols)[k];
    SectionLines(t, s.first, s.end, |t.rowMap|);
    assert s.lines[j].cells[t.headerCols..] == Shown(t, s.first, s.end);
    ShownIs(t, s.first, s.end);
  }

  lemma ShownIs(t: Table, a: nat, b: nat)
    requires a <= b <= |t.cols|
    ensures Increasing(Shown(t, a, b))
    ensures forall c :: c in Shown(t, a, b) <==> a <= c < b && ColWanted(t, c)
  {
    hide Shown;
    ShownBelow(t, a, b);
    forall c | a <= c < b && ColWanted(t, c)
      ensures c in Shown(t, a, b)
    {
      ShownComplete(t, a, b, c);
    }
  }

  /** The sections follow one another from left to right, each starting at a wanted column. */
  ghost predicate LeftToRight(t: Table, ss: seq<Section>, col: nat) {
    && (forall k :: 0 <= k < |ss| ==>
          col <= ss[k].first < ss[k].end <= |t.cols| && ColWanted(t, ss[k].first))
    && forall k :: 0 < k < |ss| ==> ss[k - 1].end <= ss[k].first
  }

  lemma LeftToRightNext(t: Table, s: Section, rest: seq<Section>, col: nat)
    requires LeftToRight(t, rest, s.end) && col <= s.first < s.end <= |t.cols| && ColWanted(t, s.first)
    ensures LeftToRight(t, [s] + rest, col)
  {
    hide ColWanted;
    var ss := [s] + rest;
    assert forall k :: 0 < k < |ss| ==> ss[k] == rest[k - 1];
  }

  /** The sections are in order. */
  lemma {:induction false} SectionsInOrder(t: Table, col: nat)
    requires t.Valid() && col <= |t.cols|
    ensures LeftToRight(t, Fold(t, col), col)
    decreases |t.cols| - col
  {
    hide LinesFrom, HeaderWidth, End;
    if col < |t.cols| {
      if !ColWanted(t, col) {
        SectionsInOrder(t, col + 1);
      } else {
        hide LeftToRight;
        var e := End(t, col, HeaderWidth(t));
        SectionsInOrder(t, e);
        LeftToRightNext(t, Section(col, e, LinesFrom(t, col, e, |t.rowMap|)), Fold(t, e), col);
      }
    }
  }

  /** Every wanted column lies in a section. */
  lemma {:induction false} SectionsCover(t: Table, col: nat, c: nat) returns (k: nat)
    requires t.Valid() && col <= c < |t.cols| && ColWanted(t, c)
    ensures k < |Fold(t, col)| && Fold(t, col)[k].first <= c < Fold(t, col)[k].end
    decreases |t.cols| - col
  {
    hide LinesFrom, HeaderWidth, End;
    if !ColWanted(t, col) {
      k := SectionsCover(t, col + 1, c);
    } else {
      var e := End(t, col, HeaderWidth(t));
      k := 0;
      if c >= e {
        k := SectionsCover(t, e, c);
        k := k + 1;
      }
    }
  }

  /** A section ends at the first column, wanted or not, that would not fit behind those before it, or behind the last
      one. */
  lemma {:induction false} EndIsFirst(t: Table, col: nat, w: nat, c: nat)
    requires col < |t.cols| == |t.width| && col < c < End(t, col, w)
    ensures HaveWidths(t, Shown(t, col, c)) && w + Width(t, Shown(t, col, c)) + t.width[c] <= t.screen
    decreases |t.cols| - col
  {
    var w' := if t.ShowCol(col) then w + t.width[col] else w;
    WidthFirst(t, col, c);
    if c == col + 1 {
      assert Shown(t, col + 1, c) == [];
    } else {
      hide Shown, Width;
      EndIsFirst(t, col + 1, w', c);
    }
  }

  /** The width of a line is the sum of the widths of its columns. */
  lemma WidthSums(t: Table, a: seq<nat>, c: nat)
    requires HaveWidths(t, a) && c < |t.width|
    ensures Width(t, []) == 0 && Width(t, a + [c]) == Width(t, a) + t.width[c]
  {
    assert (a + [c])[..|a|] == a;
  }

  /** Column c would still fit into a line with the header columns and the wanted columns from first on. */
  ghost predicate Fits(t: Table, first: nat, c: nat)
    requires t.Valid() && first < c < |t.cols|
  {
    var cells := HeaderCells(t.headerCols) + Shown(t, first, c);
    HaveWidths(t, cells) && Width(t, cells) + t.width[c] <= t.screen
  }

  /** Every section ends where the columns do or in front of the first one that does not fit. */
  lemma SectionEnd(t: Table, k: nat, c: nat)
    requires t.Valid() && k < |Fold(t, t.headerCols)|
    ensures var s := Fold(t, t.headerCols)[k];
            && s.first < s.end <= |t.cols|
            && (s.end < |t.cols| ==> !Fits(t, s.first, s.end))
            && (s.first < c < s.end ==> Fits(t, s.first, c))
  {
    hide LinesFrom, Shown, Width, Table.ShowCol, HeaderWidth, End;
    FoldSections(t, t.headerCols, k);
    var s := Fold(t, t.headerCols)[k];
    SectionFits(t, s.first);
    if s.first < c < s.end { EndFitsBefore(t, s.first, c); }
  }

  lemma EndFitsBefore(t: Table, first: nat, c: nat)
    requires t.Valid() && first < |t.cols| && first < c < End(t, first, HeaderWidth(t))
    ensures c < |t.cols| && Fits(t, first, c)
  {
    hide Shown, Width, Table.ShowCol, End;
    EndIsFirst(t, first, HeaderWidth(t), c);
    WidthConcat(t, HeaderCells(t.headerCols), Shown(t, first, c));
  }

  // ----- display_table -----

  /** The left header columns of a line. */
  method DisplayHeader(t: Table) returns (cells: seq<nat>, lineWidth: nat)
    requires t.Valid()
    ensures cells == HeaderCells(t.headerCols) && lineWidth == HeaderWidth(t)
  {
    lineWidth, cells := 0, [];
    for h := 0 to t.headerCols
      invariant cells == HeaderCells(h) && lineWidth == Width(t, HeaderCells(h))
    {
      assert HeaderCells(h + 1)[..h] == HeaderCells(h);
      cells := cells + [h];
      lineWidth := lineWidth + t.width[h];
    }
  }

  /** One line: the header columns, and then data columns for as long as they fit. */
  method DisplayLine(t: Table, dataCol: nat) returns (cells: seq<nat>, col: nat)
    requires t.Valid() && dataCol < |t.cols|
    ensures col == End(t, dataCol, HeaderWidth(t)) && cells == HeaderCells(t.headerCols) + Shown(t, dataCol, col)
  {
    hide Table.ShowCol;
    var lineWidth: nat;
    cells, lineWidth := DisplayHeader(t);
    ghost var header := cells;
    col := dataCol;
    cells, lineWidth, col := DisplayColumn(t, cells, lineWidth, col);
    while !(col >= |t.cols| || lineWidth + t.width[col] > t.screen)
      invariant dataCol < col <= |t.cols|
      invariant End(t, dataCol, HeaderWidth(t)) ==
                  if col >= |t.cols| || lineWidth + t.width[col] > t.screen then col else End(t, col, lineWidth)
      invariant cells == header + Shown(t, dataCol, col)
      decreases |t.cols| - col
    {
      ghost var c := col;
      cells, lineWidth, col := DisplayColumn(t, cells, lineWidth, col);
      assert Shown(t, dataCol, col) == Shown(t, dataCol, c) + if t.ShowCol(c) then [c] else [];
    }
  }

  /** The body of the innermost loop. */
  method DisplayColumn(t: Table, cells0: seq<nat>, w0: nat, col0: nat) returns (cells: seq<nat>, w: nat, col: nat)
    requires t.Valid() && col0 < |t.cols|
    ensures col == col0 + 1
    ensures w == if t.ShowCol(col0) then w0 + t.width[col0] else w0
    ensures cells == cells0 + if t.ShowCol(col0) then [col0] else []
  {
    cells, w, col := cells0, w0, col0;
    if t.cols[col].always || ((t.unseenCols || t.cols[col].seen) && (t.zeroCols || t.cols[col].nonZero)) {
      cells := cells + [col];
      w := w + t.width[col];
    }
    col := col + 1;
  }

  /** The lines of one section; col is where the last of them ended. */
  method DisplaySection(t: Table, dataCol: nat) returns (lines: seq<Line>, col: nat)
    requires t.Valid() && dataCol < |t.cols|
    ensures col == End(t, dataCol, HeaderWidth(t)) && lines == LinesFrom(t, dataCol, col, |t.rowMap|)
  {
    hide End, HeaderWidth, Shown, Table.ShowCol;
    lines := [];
    ghost var e := End(t, dataCol, HeaderWidth(t));
    col := dataCol;
    ghost var some := false;
    ghost var top :| 0 <= top < |t.rowMap| && t.rowMap[top] < t.headerRows;
    for k := 0 to |t.rowMap|
      invariant lines == LinesFrom(t, dataCol, e, k)
      invariant some ==> col == e
      invariant top < k ==> some
    {
      var row := t.rowMap[k];
      if row >= t.headerRows && !t.rows[row].always {
        if (!t.unseenRows && !t.rows[row].seen) || (!t.zeroRows && !t.rows[row].nonZero) { continue; }
      }
      var cells;
      cells, col := DisplayLine(t, dataCol);
      lines := lines + [Line(row, cells)];
      some := true;
    }
  }

  /** display_table, once it is known that there is something to show. */
  method DisplayTable(t: Table) returns (sections: seq<Section>)
    requires t.Valid()
    ensures sections == Fold(t, t.headerCols)
  {
    hide End, HeaderWidth, LinesFrom, Shown;
    sections := [];
    var dataCol := t.headerCols;
    while dataCol < |t.cols|
      invariant dataCol <= |t.cols|
      invariant Fold(t, t.headerCols) == sections + Fold(t, dataCol)
    {
      if !t.cols[dataCol].always &&
         ((!t.unseenCols && !t.cols[dataCol].seen) || (!t.zeroCols && !t.cols[dataCol].nonZero)) {
        dataCol := dataCol + 1;
        continue;
      }
      var lines, col := DisplaySection(t, dataCol);
      sections := sections + [Section(dataCol, col, lines)];
      dataCol := col;
    }
  }
}
