/**
  numastat's per-node table: node numbers mapped to columns, quantities added to a cell and to three totals.
 */
module NodeTotals {
  import opened CText

  // ----- columns -----

  ghost predicate Sorted(s: seq<nat>) {
    forall i, j :: 0 <= i < j < |s| ==> s[i] <= s[j]
  }

  ghost predicate Distinct(s: seq<nat>) {
    forall i, j :: 0 <= i < j < |s| ==> s[i] != s[j]
  }

  method SmallestFrom(a: array<nat>, ix: nat) returns (smallest: nat)
    requires ix < a.Length
    ensures ix <= smallest < a.Length && forall j :: ix <= j < a.Length ==> a[smallest] <= a[j]
  {
    smallest := ix;
    for iy := ix + 1 to a.Length
      invariant ix <= smallest < a.Length
      invariant forall j :: ix <= j < iy ==> a[smallest] <= a[j]
    {
      if a[smallest] > a[iy] { smallest := iy; }
    }
  }

  method Swap(a: array<nat>, i: nat, j: nat)
    requires i < a.Length && j < a.Length
    modifies a
    ensures multiset(a[..]) == multiset(old(a[..]))
    ensures a[..] == old(a[..])[i := old(a[j])][j := old(a[i])]
  {
    a[i], a[j] := a[j], a[i];
  }

  /** The first ix numbers are in order and none is greater than a later one. */
  ghost predicate SortedUpto(s: seq<nat>, ix: nat) {
    forall i, j :: 0 <= i < j < |s| && i < ix ==> s[i] <= s[j]
  }

  /** init_node_ix_map_and_header: the nodes found are put into increasing order. */
  method SortNodes(a: array<nat>)
    modifies a
    ensures Sorted(a[..]) && multiset(a[..]) == multiset(old(a[..]))
  {
    for ix := 0 to a.Length
      invariant multiset(a[..]) == multiset(old(a[..]))
      invariant SortedUpto(a[..], ix)
    {
      var smallest := SmallestFrom(a, ix);
      ghost var was := a[..];
      if smallest != ix { Swap(a, ix, smallest); }
      assert a[..] == was[ix := was[smallest]][smallest := was[ix]];
      PutSmallest(was, ix, smallest);
    }
  }

  lemma PutSmallest(s: seq<nat>, ix: nat, k: nat)
    requires ix <= k < |s| && SortedUpto(s, ix) && forall j :: ix <= j < |s| ==> s[k] <= s[j]
    ensures SortedUpto(s[ix := s[k]][k := s[ix]], ix + 1)
  {
    var t := s[ix := s[k]][k := s[ix]];
    forall i, j | 0 <= i < j < |t| && i < ix + 1
      ensures t[i] <= t[j]
    {
      if i < ix {
        assert t[i] == s[i];
        assert t[j] == if j == ix then s[k] else if j == k then s[ix] else s[j];
      }
    }
  }

  /** The header over the column of a node. */
  function Header(node: nat, compatible: bool): string {
    (if compatible then "node" else "Node ") + Decimal(node)
  }

  /** One header for each node, and "Total" behind them. */
  ghost predicate AreHeaders(headers: seq<string>, nodes: seq<nat>, compatible: bool) {
    && |headers| == |nodes| + 1 && headers[|nodes|] == "Total"
    && forall k :: 0 <= k < |nodes| ==> headers[k] == Header(nodes[k], compatible)
  }

  /** The last loop of init_node_ix_map_and_header. */
  method FillHeaders(nodes: seq<nat>, compatible: bool) returns (header: array<string>)
    ensures fresh(header) && AreHeaders(header[..], nodes, compatible)
  {
    hide Header;
    header := new string[|nodes| + 1](_ => "");
    for ix := 0 to |nodes| + 1
      invariant forall k :: 0 <= k < ix && k < |nodes| ==> header[k] == Header(nodes[k], compatible)
      invariant ix == |nodes| + 1 ==> header[|nodes|] == "Total"
    {
      header[ix] := if ix == |nodes| then "Total" else Header(nodes[ix], compatible);
    }
  }

  /** Only one column has the header of a node, and it is the node's. */
  lemma HeadersDiffer(headers: seq<string>, nodes: seq<nat>, compatible: bool, c: nat, k: nat)
    requires AreHeaders(headers, nodes, compatible) && Distinct(nodes) && c < |nodes| && k <= |nodes|
    ensures headers[k] == Header(nodes[c], compatible) <==> k == c
  {
    hide Decimal;
    if k < |nodes| && headers[k] == Header(nodes[c], compatible) {
      HeaderInjective(nodes[k], nodes[c], compatible);
    }
    assert headers[|nodes|][0] == 'T' && Header(nodes[c], compatible)[0] != 'T';
  }

  /** A header is the word and the node's own number in decimal. */
  lemma HeaderNumber(node: nat, compatible: bool)
    ensures var word, header := if compatible then "node" else "Node ", Header(node, compatible);
            && |word| < |header| && header[..|word|] == word
            && (forall i :: |word| <= i < |header| ==> '0' <= header[i] <= '9')
            && Value(header[|word|..], 10) == node
            && (node > 0 ==> header[|word|] != '0') && (node == 0 ==> header[|word|..] == "0")
  {
    hide Decimal;
    DecimalValue(node);
    var word := if compatible then "node" else "Node ";
    assert Header(node, compatible)[|word|..] == Decimal(node);
  }

  lemma HeaderInjective(m: nat, n: nat, compatible: bool)
    requires Header(m, compatible) == Header(n, compatible)
    ensures m == n
  {
    hide Decimal;
    var p := if compatible then "node" else "Node ";
    assert Header(m, compatible)[|p|..] == Decimal(m) && Header(n, compatible)[|p|..] == Decimal(n);
    DecimalValue(m);
    DecimalValue(n);
  }

  // ----- quantities -----

  /** A quantity of a row's process or category on a node. */
  datatype Quantity = Quantity(row: nat, node: nat, value: real)

  /** Row or node -1 stands for all of them. */
  predicate Counts(q: Quantity, row: int, node: int) {
    (row == -1 || q.row == row) && (node == -1 || q.node == node)
  }

  function Sum(qs: seq<Quantity>, row: int, node: int): real {
    if qs == [] then 0.0
    else Sum(qs[..|qs| - 1], row, node) + if Counts(qs[|qs| - 1], row, node) then qs[|qs| - 1].value else 0.0
  }

  lemma SumNext(qs: seq<Quantity>, q: Quantity, row: int, node: int)
    ensures Sum(qs + [q], row, node) == Sum(qs, row, node) + if Counts(q, row, node) then q.value else 0.0
  {
    assert (qs + [q])[..|qs|] == qs;
  }

  class Table {
    const nodes: seq<nat>            // node_ix_map
    const compatible: bool           // compatibility_mode
    const headers: array<string>     // node_header
    const rows: nat                  // data rows
    const cells: array2<real>        // the data area: rows, a rule, the total row; nodes and the total column
    ghost var stream: seq<Quantity>  // everything added since the table was cleared

    /** Every cell is the sum of what belongs into it. */
    ghost predicate Valid()
      reads this, cells, headers
    {
      && Distinct(nodes) && AreHeaders(headers[..], nodes, compatible)
      && cells.Length0 == rows + 2 && cells.Length1 == |nodes| + 1
      && (forall k :: 0 <= k < |stream| ==> stream[k].row < rows && stream[k].node in nodes)
      && (forall r, c :: 0 <= r < rows && 0 <= c < |nodes| ==> cells[r, c] == Sum(stream, r, nodes[c]))
      && (forall r :: 0 <= r < rows ==> cells[r, |nodes|] == Sum(stream, r, -1))
      && (forall c :: 0 <= c < |nodes| ==> cells[rows + 1, c] == Sum(stream, -1, nodes[c]))
      && cells[rows + 1, |nodes|] == Sum(stream, -1, -1)
    }

    /** The headers, init_table and zero_table_data. */
    constructor (nodes: seq<nat>, compatible: bool, rows: nat)
      requires Distinct(nodes)
      ensures Valid() && fresh(cells) && fresh(headers) && stream == []
      ensures this.nodes == nodes && this.compatible == compatible && this.rows == rows
    {
      var header := FillHeaders(nodes, compatible);
      this.nodes := nodes;
      this.compatible := compatible;
      this.headers := header;
      this.rows := rows;
      cells := new real[rows + 2, |nodes| + 1]((_, _) => 0.0);
      stream := [];
    }

    /** The column of a node; the search has no other end than finding it. */
    method FindColumn(node: nat) returns (c: nat)
      requires node in nodes
      ensures c < |nodes| && nodes[c] == node
    {
      c := 0;
      while nodes[c] != node
        invariant c < |nodes| && node in nodes[c..]
        decreases |nodes| - c
      {
        c := c + 1;
      }
    }

    /** The four cells that a quantity is added to: those of its row and of the total row, in column c and in the
        total column. */
    predicate Touched(q: Quantity, c: nat, r: nat, k: nat) {
      (r == q.row || r == rows + 1) && (k == c || k == |nodes|)
    }

    /** One quantity read from numa_maps is added to its cell and to the three totals; its column is the only one with
        the header of its node. */
    method Add(q: Quantity) returns (c: nat)
      requires Valid() && q.row < rows && q.node in nodes
      modifies this`stream, cells
      ensures Valid() && stream == old(stream) + [q]
      ensures c < |nodes| && forall k :: 0 <= k <= |nodes| ==> (headers[k] == Header(q.node, compatible) <==> k == c)
      ensures forall r, k :: 0 <= r < rows + 2 && 0 <= k <= |nodes| ==>
                cells[r, k] == old(cells[r, k]) + if Touched(q, c, r, k) then q.value else 0.0
    {
      hide Sum, Header;
      c := FindColumn(q.node);
      forall k: nat | k <= |nodes|
        ensures headers[k] == Header(q.node, compatible) <==> k == c
      {
        HeadersDiffer(headers[..], nodes, compatible, c, k);
      }
      hide AreHeaders;
      ghost var s := stream;
      forall r: int, n: int
        ensures Sum(s + [q], r, n) == Sum(s, r, n) + if Counts(q, r, n) then q.value else 0.0
      {
        SumNext(s, q, r, n);
      }
      AddValue(q, c);
      stream := stream + [q];
    }

    /** The four additions. */
    method AddValue(q: Quantity, c: nat)
      requires cells.Length0 == rows + 2 && cells.Length1 == |nodes| + 1 && q.row < rows && c < |nodes|
      modifies cells
      ensures forall r, k :: 0 <= r < rows + 2 && 0 <= k <= |nodes| ==>
                cells[r, k] == old(cells[r, k]) + if Touched(q, c, r, k) then q.value else 0.0
    {
      cells[q.row, c] := cells[q.row, c] + q.value;
      cells[q.row, |nodes|] := cells[q.row, |nodes|] + q.value;
      cells[rows + 1, c] := cells[rows + 1, c] + q.value;
      cells[rows + 1, |nodes|] := cells[rows + 1, |nodes|] + q.value;
    }
  }

  // ----- totals -----

  /** The sum of a row's node cells. */
  function AcrossNodes(qs: seq<Quantity>, row: int, nodes: seq<nat>): real {
    if nodes == [] then 0.0
    else AcrossNodes(qs, row, nodes[..|nodes| - 1]) + Sum(qs, row, nodes[|nodes| - 1])
  }

  /** The sum of a column's row cells. */
  function DownRows(qs: seq<Quantity>, rows: nat, node: int): real {
    if rows == 0 then 0.0 else DownRows(qs, rows - 1, node) + Sum(qs, rows - 1, node)
  }

  lemma {:induction false} AcrossNext(qs: seq<Quantity>, q: Quantity, row: int, nodes: seq<nat>)
    requires Distinct(nodes)
    ensures AcrossNodes(qs + [q], row, nodes) ==
              AcrossNodes(qs, row, nodes) + if (row == -1 || q.row == row) && q.node in nodes then q.value else 0.0
  {
    hide Sum;
    if nodes != [] {
      var front, last := nodes[..|nodes| - 1], nodes[|nodes| - 1];
      AcrossNext(qs, q, row, front);
      SumNext(qs, q, row, last);
      assert nodes == front + [last];
      assert last !in front;
    }
  }

  lemma {:induction false} DownNext(qs: seq<Quantity>, q: Quantity, rows: nat, node: int)
    ensures DownRows(qs + [q], rows, node) ==
              DownRows(qs, rows, node) + if (node == -1 || q.node == node) && q.row < rows then q.value else 0.0
  {
    hide Sum;
    if rows > 0 {
      DownNext(qs, q, rows - 1, node);
      SumNext(qs, q, rows - 1, node);
    }
  }

  lemma {:induction false} NothingAdded(row: int, node: int, nodes: seq<nat>, rows: nat)
    ensures AcrossNodes([], row, nodes) == 0.0 && DownRows([], rows, node) == 0.0
    decreases |nodes| + rows
  {
    if nodes != [] {
      NothingAdded(row, node, nodes[..|nodes| - 1], rows);
    } else if rows > 0 {
      NothingAdded(row, node, nodes, rows - 1);
    }
    if rows > 0 { NothingAdded(row, node, [], rows - 1); }
  }

  /** After any stream of quantities on known nodes, a row's total is the sum over its nodes, and so is the grand
      total over the total row (row -1). */
  lemma {:induction false} TotalColumn(qs: seq<Quantity>, row: int, nodes: seq<nat>)
    requires Distinct(nodes) && forall k :: 0 <= k < |qs| ==> qs[k].node in nodes
    ensures Sum(qs, row, -1) == AcrossNodes(qs, row, nodes)
  {
    if qs == [] {
      NothingAdded(row, -1, nodes, 0);
    } else {
      hide Sum;
      var front, q := qs[..|qs| - 1], qs[|qs| - 1];
      TotalColumn(front, row, nodes);
      assert front + [q] == qs;
      AcrossNext(front, q, row, nodes);
      SumNext(front, q, row, -1);
    }
  }

  /** A node's total is the sum over the rows, and so is the grand total over the total column (node -1). */
  lemma {:induction false} TotalRow(qs: seq<Quantity>, rows: nat, node: int)
    requires forall k :: 0 <= k < |qs| ==> qs[k].row < rows
    ensures Sum(qs, -1, node) == DownRows(qs, rows, node)
  {
    if qs == [] {
      NothingAdded(-1, node, [], rows);
    } else {
      hide Sum;
      var front, q := qs[..|qs| - 1], qs[|qs| - 1];
      TotalRow(front, rows, node);
      assert front + [q] == qs;
      DownNext(front, q, rows, node);
      SumNext(front, q, -1, node);
    }
  }

  /** Add up a whole stream. The cells are the data area without the rule. */
  method AddAll(nodes: seq<nat>, compatible: bool, rows: nat, qs: seq<Quantity>)
    returns (headers: array<string>, cells: array2<real>)
    requires Distinct(nodes) && forall k :: 0 <= k < |qs| ==> qs[k].row < rows && qs[k].node in nodes
    ensures AreHeaders(headers[..], nodes, compatible)
    ensures cells.Length0 == rows + 2 && cells.Length1 == |nodes| + 1
    ensures forall r, c :: 0 <= r < rows && 0 <= c < |nodes| ==> cells[r, c] == Sum(qs, r, nodes[c])
    ensures forall r :: 0 <= r < rows ==> cells[r, |nodes|] == AcrossNodes(qs, r, nodes)
    ensures forall c :: 0 <= c < |nodes| ==> cells[rows + 1, c] == DownRows(qs, rows, nodes[c])
    ensures cells[rows + 1, |nodes|] == AcrossNodes(qs, -1, nodes) == DownRows(qs, rows, -1)
  {
    hide Sum, AcrossNodes, DownRows, AreHeaders, Header, Table.Touched;
    var t := new Table(nodes, compatible, rows);
    for k := 0 to |qs|
      invariant fresh(t) && fresh(t.cells) && t.Valid() && t.nodes == nodes && t.rows == rows
      invariant t.compatible == compatible && t.stream == qs[..k]
    {
      var c := t.Add(qs[k]);
    }
    assert qs[..|qs|] == qs;
    headers, cells := t.headers, t.cells;
    forall r | 0 <= r < rows
      ensures cells[r, |nodes|] == AcrossNodes(qs, r, nodes)
    {
      TotalColumn(qs, r, nodes);
    }
    forall c | 0 <= c < |nodes|
      ensures cells[rows + 1, c] == DownRows(qs, rows, nodes[c])
    {
      TotalRow(qs, rows, nodes[c]);
    }
    TotalColumn(qs, -1, nodes);
    TotalRow(qs, rows, -1);
  }
}
