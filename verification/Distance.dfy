/**
  distance.c: the kernel lists, for each existing node, its distances to the existing nodes only; the library
  spreads the lists out into a table indexed by node numbers.
 */
module Distance {
  import opened Words
  import opened CText
  import opened Sets

  /** An unsigned long assigned to an int. */
  function ToInt(v: Word): int {
    var low := v % UINT_MODULUS;
    if low < 0x8000_0000 then low else low - UINT_MODULUS
  }

  /** The numbers strtoul finds one after the other. */
  function Numbers(s: Text, pos: nat): seq<int>
    requires pos <= |s|
    decreases |s| - pos
  {
    var n := Strtoul(s, pos, 0);
    if n.end == pos then [] else [ToInt(n.value)] + Numbers(s, n.end)
  }

  /** An int is the number modulo 2^32 that is in its range. */
  lemma ToIntMeans(v: Word)
    ensures -0x8000_0000 <= ToInt(v) < 0x8000_0000 && (v - ToInt(v)) % 0x1_0000_0000 == 0
    ensures v < 0x8000_0000 ==> ToInt(v) == v
  {
  }

  /** Numbers in decimal, each with a blank in front, and then end. */
  function DistanceText(ds: seq<nat>, end: Text): Text {
    if ds == [] then end else [' '] + (Decimal(ds[0]) + DistanceText(ds[1..], end))
  }

  /** A line of numbers that fit an int is read as those numbers; the newline behind them adds none. */
  lemma {:induction false} NumbersOfText(s: Text, pos: nat, ds: seq<nat>)
    requires pos <= |s| && s[pos..] == DistanceText(ds, "\n") && forall k :: 0 <= k < |ds| ==> ds[k] < 0x8000_0000
    ensures |Numbers(s, pos)| == |ds| && forall k :: 0 <= k < |ds| ==> Numbers(s, pos)[k] == ds[k]
    decreases |ds|
  {
    hide Strtoul, Decimal, DistanceText;
    TextBegins(ds);
    NextNumber(s, pos);
    if ds == [] {
      NoNumber(s, pos);
    } else {
      var rest := DistanceText(ds[1..], "\n");
      TextBegins(ds[1..]);
      var e := ReadOne(s, pos, [' '], ds[0], rest);
      NumbersOfText(s, e, ds[1..]);
    }
  }

  /** A line of a distance file: numbers with a blank between them, and a newline. */
  function LineText(ds: seq<nat>): Text {
    if ds == [] then "\n" else Decimal(ds[0]) + DistanceText(ds[1..], "\n")
  }

  lemma NumbersOfLine(ds: seq<nat>)
    requires forall k :: 0 <= k < |ds| ==> ds[k] < 0x8000_0000
    ensures |Numbers(LineText(ds), 0)| == |ds| && forall k :: 0 <= k < |ds| ==> Numbers(LineText(ds), 0)[k] == ds[k]
  {
    hide Strtoul, Decimal, DistanceText;
    var s := LineText(ds);
    assert s[0..] == s;
    NextNumber(s, 0);
    if ds == [] {
      NoNumber(s, 0);
    } else {
      var rest := DistanceText(ds[1..], "\n");
      TextBegins(ds[1..]);
      assert s == [] + (Decimal(ds[0]) + rest);
      var e := ReadOne(s, 0, [], ds[0], rest);
      NumbersOfText(s, e, ds[1..]);
    }
  }

  /** The numbers need not be in decimal: they are read as C does it. */
  lemma FirstNumber(blanks: Text, sign: Text, prefix: Text, digits: Text, rest: Text)
    requires AllBlank(blanks) && digits != []
    requires (sign == [] || sign == ['+'] || sign == ['-']) && (prefix == [] || prefix == "0x" || prefix == "0X")
    requires (forall i :: 0 <= i < |digits| ==> DigitValue(digits[i]) < BaseOf(prefix, digits, 0))
             && (rest == [] || DigitValue(rest[0]) == 36)
    ensures var v := Value(digits, BaseOf(prefix, digits, 0));
            var front := blanks + (sign + (prefix + digits));
            && Numbers(front + rest, 0) != []
            && Numbers(front + rest, 0)[0] ==
                 ToInt(if v >= ULONG_MODULUS then 0xFFFF_FFFF_FFFF_FFFF
                       else if sign == ['-'] then (ULONG_MODULUS - v) % ULONG_MODULUS else v)
  {
    hide Strtoul, Value, BaseOf, AllBlank, ToInt;
    assert rest != [] ==> rest[0] !in "xX";
    hide DigitValue;
    StrtoulForm(blanks, sign, prefix, digits, rest, 0);
    NextNumber(blanks + (sign + (prefix + digits)) + rest, 0);
  }

  lemma TextBegins(ds: seq<nat>)
    ensures DistanceText(ds, "\n") == if ds == [] then "\n" else [' '] + (Decimal(ds[0]) + DistanceText(ds[1..], "\n"))
    ensures DistanceText(ds, "\n") != [] && DigitValue(DistanceText(ds, "\n")[0]) == 36
  {
    hide Decimal;
  }

  lemma NoNumber(s: Text, pos: nat)
    requires pos <= |s| && s[pos..] == "\n"
    ensures Strtoul(s, pos, 0).end == pos
  {
    assert s[pos] == s[pos..][0] && |s| == pos + 1;
  }

  lemma ReadOne(s: Text, pos: nat, blank: Text, d: nat, rest: Text) returns (e: nat)
    requires pos <= |s| && s[pos..] == blank + (Decimal(d) + rest) && rest != [] && DigitValue(rest[0]) == 36
    requires d < 0x8000_0000 && forall j :: 0 <= j < |blank| ==> blank[j] == ' '
    ensures pos < e <= |s| && s[e..] == rest
    ensures var n := Strtoul(s, pos, 0); n.end == e && ToInt(n.value) == d
  {
    hide Strtoul, Decimal;
    var q := pos + |blank|;
    e := q + |Decimal(d)|;
    forall j | pos <= j < q
      ensures s[j] == ' '
    {
      assert s[j] == s[pos..][j - pos];
    }
    assert s[q..] == s[pos..][|blank|..] == Decimal(d) + rest;
    assert s[q..e] == s[q..][..|Decimal(d)|];
    assert s[e..] == s[q..][|Decimal(d)|..];
    assert s[e] == s[e..][0];
    StrtoulDecimal(s, pos, q, d);
    ToIntMeans(d);
  }

  /** Entry b of a row takes a number if node b exists; behind the row every entry takes one. */
  predicate Takes(nodes: set<nat>, n: nat, b: nat) {
    b >= n || b in nodes
  }

  /** How many entries before b take a number. */
  function Place(nodes: set<nat>, n: nat, b: nat): (k: nat) {
    if b <= n then Rank(nodes, b) else Rank(nodes, n) + (b - n)
  }

  /** At most n numbers of a line are stored. */
  function Stored(nums: seq<int>, n: nat): nat {
    if |nums| < n then |nums| else n
  }

  /** Entry b of a row after a line of numbers has been read into it. */
  function Cell(nodes: set<nat>, n: nat, nums: seq<int>, b: nat, before: int): int {
    if Takes(nodes, n, b) && Place(nodes, n, b) < Stored(nums, n) then nums[Place(nodes, n, b)] else before
  }

  /** Where the writing ends: at the end of the row, or behind it if there are more numbers than nodes. */
  function Reach(nodes: set<nat>, n: nat, nums: seq<int>): nat {
    if Stored(nums, n) <= Rank(nodes, n) then n else n + Stored(nums, n) - Rank(nodes, n)
  }

  /** parse_numbers: n is the highest node plus one, row the start of the table row. Numbers beyond those of the
      existing nodes go behind the row. */
  method ParseNumbers(line: Text, nodes: set<nat>, n: nat, table: array<int>, row: nat)
    requires row + Reach(nodes, n, Numbers(line, 0)) <= table.Length
    modifies table
    ensures forall k :: 0 <= k < table.Length ==>
              table[k] == if row <= k then Cell(nodes, n, Numbers(line, 0), k - row, old(table[k])) else old(table[k])
  {
    hide *;
    var s: nat, i: nat, j: nat := 0, 0, 0;
    ghost var nums := Numbers(line, 0);
    ghost var was := table[..];
    BeginRow(nodes, n, nums, was, row);
    while i < n
      invariant s <= |line| && i <= |nums| && nums[i..] == Numbers(line, s)
      invariant Filled(nodes, n, nums, was, table[..], row, i, j)
    {
      var scan := Strtoul(line, s, 0);
      NextNumber(line, s);
      ScanEnd(line, s);
      while j < n && j !in nodes
        invariant Filled(nodes, n, nums, was, table[..], row, i, j)
      {
        SkipEntry(nodes, n, nums, was, table[..], row, i, j);
        j := j + 1;
      }
      if s == scan.end { break; }
      assert nums[i] == nums[i..][0] && nums[i + 1..] == nums[i..][1..];
      FillEntry(nodes, n, nums, was, table[..], row, i, j);
      table[row + j] := ToInt(scan.value);
      s := scan.end;
      i, j := i + 1, j + 1;
    }
    EndRow(nodes, n, nums, was, table[..], row, i, j);
  }

  /** The entries before j have taken the first i numbers. */
  ghost predicate Filled(nodes: set<nat>, n: nat, nums: seq<int>, was: seq<int>, table: seq<int>, row: nat,
                         i: nat, j: nat) {
    && i == Place(nodes, n, j) && i <= Stored(nums, n) && |table| == |was|
    && row + Reach(nodes, n, nums) <= |table|
    && forall k :: 0 <= k < |table| ==>
         table[k] == if row <= k < row + j then Cell(nodes, n, nums, k - row, was[k]) else was[k]
  }

  lemma BeginRow(nodes: set<nat>, n: nat, nums: seq<int>, was: seq<int>, row: nat)
    requires row + Reach(nodes, n, nums) <= |was|
    ensures Filled(nodes, n, nums, was, was, row, 0, 0)
  {
  }

  lemma SkipEntry(nodes: set<nat>, n: nat, nums: seq<int>, was: seq<int>, table: seq<int>, row: nat, i: nat, j: nat)
    requires Filled(nodes, n, nums, was, table, row, i, j) && j < n && j !in nodes
    ensures Filled(nodes, n, nums, was, table, row, i, j + 1)
  {
    hide Stored, Reach;
  }

  lemma FillEntry(nodes: set<nat>, n: nat, nums: seq<int>, was: seq<int>, table: seq<int>, row: nat, i: nat, j: nat)
    requires Filled(nodes, n, nums, was, table, row, i, j) && (j >= n || j in nodes) && i < n && i < |nums|
    ensures row + j < |table| && Filled(nodes, n, nums, was, table[row + j := nums[i]], row, i + 1, j + 1)
  {
    assert Place(nodes, n, j + 1) == i + 1;
    assert row + j < |table|;
    hide Place, Rank;
  }

  lemma {:induction false} PlaceMonotone(nodes: set<nat>, n: nat, b: nat, c: nat)
    requires b <= c
    ensures Place(nodes, n, b) <= Place(nodes, n, c)
  {
    RankMonotone(nodes, if b <= n then b else n, if c <= n then c else n);
  }

  /** When all numbers have been stored, no later entry takes one. */
  lemma EndRow(nodes: set<nat>, n: nat, nums: seq<int>, was: seq<int>, table: seq<int>, row: nat, i: nat, j: nat)
    requires Filled(nodes, n, nums, was, table, row, i, j) && (i >= n || i >= |nums|)
    ensures forall k :: 0 <= k < |table| ==>
              table[k] == if row <= k then Cell(nodes, n, nums, k - row, was[k]) else was[k]
  {
    forall b: nat | j <= b
      ensures Place(nodes, n, b) >= Stored(nums, n)
    {
      PlaceMonotone(nodes, n, j, b);
    }
    assert i >= Stored(nums, n);
    hide Place, Takes, Stored;
    forall k | 0 <= k < |table| && row <= k
      ensures table[k] == Cell(nodes, n, nums, k - row, was[k])
    {
      var b: nat := k - row;
      assert j <= b ==> Place(nodes, n, b) >= Stored(nums, n);
    }
  }

  lemma ScanEnd(s: Text, pos: nat)
    requires pos <= |s|
    ensures pos <= Strtoul(s, pos, 0).end <= |s|
  {
    hide Strtoul;
  }

  /** With at most one number for each node nothing is written behind the row. */
  lemma WithinRow(nodes: set<nat>, n: nat, nums: seq<int>)
    requires |nums| <= Rank(nodes, n)
    ensures Reach(nodes, n, nums) == n
    ensures forall b: nat, x :: Cell(nodes, n, nums, b, x) ==
              if b < n && b in nodes && Rank(nodes, b) < |nums| then nums[Rank(nodes, b)] else x
  {
    hide Rank;
  }

  lemma NextNumber(s: Text, pos: nat)
    requires pos <= |s|
    ensures var n := Strtoul(s, pos, 0);
            Numbers(s, pos) == if n.end == pos then [] else [ToInt(n.value)] + Numbers(s, n.end)
  {
  }

  // ----- the table -----

  /** /sys/devices/system/node/node<i>/distance: absent, not to be opened, empty, or one line. */
  datatype File = Absent | Unreadable | Empty | Line(text: Text)

  /** All files in front of file a have a line, and file a is missing or there is none. */
  ghost predicate FirstMissing(files: seq<File>, a: nat) {
    a <= |files| && (a == |files| || files[a].Absent?) && forall j :: 0 <= j < a ==> files[j].Line?
  }

  /** The nodes below n = numa_max_node() + 1, and their files. */
  datatype System = System(nodes: set<nat>, n: nat, files: seq<File>) {

    /** No line has so many numbers more than there are nodes that they would go beyond the table. */
    ghost predicate Valid() {
      && |files| == n
      && forall i :: 0 <= i < n && files[i].Line? ==> i * n + Reach(nodes, n, Numbers(files[i].text, 0)) <= n * n
    }

    /** No line has more numbers than there are nodes. */
    ghost predicate Tidy() {
      && Valid()
      && forall i :: 0 <= i < n && files[i].Line? ==> |Numbers(files[i].text, 0)| <= Rank(nodes, n)
    }

    /** Every existing node has a line with one number for each existing node. */
    ghost predicate WellFormed() {
      && Valid()
      && forall i :: 0 <= i < n ==>
           if i in nodes then files[i].Line? && |Numbers(files[i].text, 0)| == Rank(nodes, n) else files[i].Absent?
    }

    /** The files in front of the first missing one all have a line. */
    ghost predicate Succeeds()
      requires |files| == n
    {
      exists a :: FirstMissing(files, a)
    }

    /** The file of node a is read: an empty file in front of it would have ended the reading. */
    ghost predicate IsRead(a: nat)
      requires |files| == n
    {
      a < n && files[a].Line? && forall j :: 0 <= j < a ==> !files[j].Empty?
    }

    /** The distance that is kept: 0 if a's file is not read, or has no number for b. */
    ghost function Kept(a: int, b: int): int
      requires |files| == n
    {
      if 0 <= a && 0 <= b < n && IsRead(a) && b in nodes && Rank(nodes, b) < |Numbers(files[a].text, 0)|
      then Numbers(files[a].text, 0)[Rank(nodes, b)] else 0
    }

    /** The distance the kernel reports: the rank(b)-th number of a's line, and 0 unless both nodes exist. */
    ghost function Expected(a: int, b: int): int
      requires WellFormed()
    {
      if 0 <= a < n && 0 <= b < n && a in nodes && b in nodes then
        RankMonotone(nodes, b, n);
        Numbers(files[a].text, 0)[Rank(nodes, b)]
      else 0
    }
  }

  /** With the files as the kernel writes them: the distance from a to b is the number in a's line that has as many
      numbers in front of it as there are existing nodes below b; from or to a node that does not exist it is 0. */
  lemma DistanceInLine(sys: System, a: nat, b: nat, ds: seq<nat>)
    requires sys.WellFormed() && a < sys.n && b < sys.n && a in sys.nodes
    requires sys.files[a] == Line(LineText(ds)) && forall k :: 0 <= k < |ds| ==> ds[k] < 0x8000_0000
    ensures |ds| == |set x | x in sys.nodes && x < sys.n|
    ensures b !in sys.nodes ==> sys.Expected(a, b) == 0 == sys.Expected(b, a)
    ensures b in sys.nodes ==>
              var k := |set x | x in sys.nodes && x < b|; k < |ds| && sys.Expected(a, b) == ds[k]
  {
    hide Numbers, LineText, Rank;
    NumbersOfLine(ds);
    RankCounts(sys.nodes, sys.n);
    RankCounts(sys.nodes, b);
    RankMonotone(sys.nodes, b, sys.n);
  }

  /** Where the distance from a to b is kept. */
  function Slot(a: nat, b: nat, n: nat): nat {
    a * n + b
  }

  /** With the files as the kernel writes them all this comes to the distances it reports. */
  lemma WellFormedKept(sys: System)
    requires sys.WellFormed()
    ensures sys.Tidy() && sys.Succeeds() && forall a, b :: sys.Kept(a, b) == sys.Expected(a, b)
  {
    hide Numbers, Reach, Rank;
    SomeMissing(sys.files);
    forall a, b
      ensures sys.Kept(a, b) == sys.Expected(a, b)
    {
      KeptIs(sys, a, b);
    }
  }

  lemma KeptIs(sys: System, a: int, b: int)
    requires sys.WellFormed()
    ensures sys.Kept(a, b) == sys.Expected(a, b)
  {
    hide Numbers, Reach, Rank;
    if 0 <= a < sys.n && 0 <= b < sys.n && b in sys.nodes {
      RankMonotone(sys.nodes, b, sys.n);
      if a in sys.nodes {
        assert sys.IsRead(a);
      } else {
        assert sys.files[a].Absent?;
      }
    }
  }

  lemma SomeMissing(files: seq<File>)
    requires forall i :: 0 <= i < |files| ==> files[i].Line? || files[i].Absent?
    ensures exists a :: FirstMissing(files, a)
  {
    var a := 0;
    while a < |files| && files[a].Line?
      invariant a <= |files| && forall j :: 0 <= j < a ==> files[j].Line?
    {
      a := a + 1;
    }
    assert FirstMissing(files, a);
  }

  /** The table after the files have been read. */
  ghost predicate Holds(sys: System, table: seq<int>)
    requires |sys.files| == sys.n
  {
    && |table| == sys.n * sys.n
    && forall a, b :: 0 <= a < sys.n && 0 <= b < sys.n ==>
         Slot(a, b, sys.n) < |table| && table[Slot(a, b, sys.n)] == sys.Kept(a, b)
  }

  lemma RowBounds(a: nat, b: nat, n: nat)
    requires a < n && b < n
    ensures 0 <= a * n && a * n + n <= n * n && Slot(a, b, n) < n * n
  {
    assert (a + 1) * n <= n * n;
  }

  /** Rows do not overlap. */
  lemma RowsApart(a: nat, b: nat, c: nat, n: nat)
    requires b < n && a != c
    ensures !(c * n <= a * n + b < c * n + n)
  {
    if a < c { assert (a + 1) * n <= c * n; } else { assert (c + 1) * n <= a * n; }
  }

  /** read_distance_table: err is 0 exactly if every file in front of the first missing one has a line. Then the table
      has the numbers of the lines up to the first empty file; it is not there if there is no such line. */
  method ReadTable(sys: System) returns (err: int, table: array?<int>)
    requires sys.Valid()
    ensures table != null ==> fresh(table)
    ensures err != 0 ==> err == -1 && table == null
    ensures err == 0 <==> sys.Succeeds()
    ensures err == 0 ==> (table == null <==> forall a: nat :: !sys.IsRead(a))
    ensures sys.Tidy() && table != null ==> Holds(sys, table[..])
  {
    hide Numbers, Rank, Cell, Reach, System.Kept, System.Succeeds, System.Tidy, RowsHold, Holds;
    var n := sys.n;
    var nd := 0;
    err, table := -1, null;
    while true
      invariant nd <= n && Progress(sys, nd, err, table != null)
      invariant table != null ==> fresh(table) && table.Length == n * n
      invariant sys.Tidy() && table != null ==> RowsHold(sys, table[..], nd)
      decreases n - nd
    {
      var file := if nd < n then sys.files[nd] else Absent;
      ProgressNext(sys, nd, err, table != null);
      match file {
        case Absent => err := 0;
        case _ =>
      }
      if file.Absent? || file.Unreadable? {
        if err == 0 && nd < n {
          if sys.Tidy() && table != null { NoRow(sys, table[..], nd); }
          nd := nd + 1;
          continue;
        }
        break;
      }
      if file.Empty? { break; }
      if table == null {
        table := new int[n * n](_ => 0);
        if sys.Tidy() { NoRows(sys, table[..], nd); }
      }
      RowBounds(nd, 0, n);
      ghost var was := table[..];
      ParseNumbers(file.text, sys.nodes, n, table, nd * n);
      if sys.Tidy() { NewRow(sys, was, table[..], nd); }
      nd := nd + 1;
    }
    if sys.Tidy() && table != null && err == 0 { AllRows(sys, table[..], nd); }
    if err != 0 { table := null; }
  }

  /** The files before that of node nd have been looked at. */
  ghost predicate Progress(sys: System, nd: nat, err: int, some: bool)
    requires |sys.files| == sys.n
  {
    && nd <= sys.n && (err == 0 || err == -1)
    && (forall j :: 0 <= j < nd ==> !sys.files[j].Empty?)
    && (err == -1 ==> forall j :: 0 <= j < nd ==> sys.files[j].Line?)
    && (err == 0 ==> sys.Succeeds())
    && (some <==> exists j :: 0 <= j < nd && sys.files[j].Line?)
  }

  /** How each kind of file goes on or ends the reading. */
  lemma ProgressNext(sys: System, nd: nat, err: int, some: bool)
    requires |sys.files| == sys.n && Progress(sys, nd, err, some)
    ensures nd == sys.n || sys.files[nd].Absent? ==> sys.Succeeds()
    ensures nd < sys.n && (sys.files[nd].Absent? || (sys.files[nd].Unreadable? && err == 0)) ==>
              Progress(sys, nd + 1, 0, some)
    ensures nd < sys.n && sys.files[nd].Line? ==> Progress(sys, nd + 1, err, true)
    ensures nd < sys.n && err == -1 && (sys.files[nd].Unreadable? || sys.files[nd].Empty?) ==> !sys.Succeeds()
    ensures nd == sys.n || sys.files[nd].Empty? ==> (some <==> exists a: nat :: sys.IsRead(a))
    ensures forall a: nat :: a < nd ==> (sys.IsRead(a) <==> sys.files[a].Line?)
  {
    if some {
      var j :| 0 <= j < nd && sys.files[j].Line?;
      assert sys.IsRead(j);
    }
    if nd == sys.n || sys.files[nd].Absent? {
      if err == -1 { assert FirstMissing(sys.files, nd); }
    }
    if a: nat :| sys.IsRead(a) && (nd == sys.n || sys.files[nd].Empty?) {
      assert a < nd && sys.files[a].Line?;
    }
  }

  /** The rows below nd have been read and the others are still zero. */
  ghost predicate RowsHold(sys: System, table: seq<int>, nd: nat)
    requires |sys.files| == sys.n
  {
    && |table| == sys.n * sys.n
    && forall a, b :: 0 <= a < sys.n && 0 <= b < sys.n ==>
         Slot(a, b, sys.n) < |table| && table[Slot(a, b, sys.n)] == if a < nd then sys.Kept(a, b) else 0
  }

  lemma NoRow(sys: System, table: seq<int>, nd: nat)
    requires |sys.files| == sys.n && RowsHold(sys, table, nd) && (nd < sys.n ==> !sys.files[nd].Line?)
    ensures RowsHold(sys, table, nd + 1)
  {
    hide Numbers, Rank, Slot;
  }

  lemma NoRows(sys: System, table: seq<int>, nd: nat)
    requires |sys.files| == sys.n && |table| == sys.n * sys.n && (forall k :: 0 <= k < |table| ==> table[k] == 0)
    requires nd <= sys.n && forall j :: 0 <= j < nd ==> !sys.files[j].Line?
    ensures RowsHold(sys, table, nd)
  {
    hide Numbers, Rank, Slot;
    forall a, b | 0 <= a < sys.n && 0 <= b < sys.n
      ensures Slot(a, b, sys.n) < |table| && table[Slot(a, b, sys.n)] == if a < nd then sys.Kept(a, b) else 0
    {
      RowBounds(a, b, sys.n);
    }
  }

  /** Where the new row's cells are. */
  lemma RowSlots(nd: nat, a: nat, b: nat, n: nat)
    requires b < n
    ensures nd * n <= Slot(a, b, n) < nd * n + n <==> a == nd
    ensures Slot(nd, b, n) - nd * n == b
    ensures a < nd ==> Slot(a, b, n) < nd * n
  {
    if a != nd { RowsApart(a, b, nd, n); }
  }

  lemma NewRow(sys: System, was: seq<int>, table: seq<int>, nd: nat)
    requires sys.Tidy() && sys.IsRead(nd) && RowsHold(sys, was, nd) && |table| == |was|
    requires forall k :: 0 <= k < |table| ==>
               table[k] == if nd * sys.n <= k
                           then Cell(sys.nodes, sys.n, Numbers(sys.files[nd].text, 0), k - nd * sys.n, was[k])
                           else was[k]
    ensures RowsHold(sys, table, nd + 1)
  {
    WithinRow(sys.nodes, sys.n, Numbers(sys.files[nd].text, 0));
    NewCells(sys, nd);
    hide *;
    assert |was| == sys.n * sys.n by { TableSize(sys, was, nd); }
    forall a: nat, b: nat | a < sys.n && b < sys.n
      ensures Slot(a, b, sys.n) < |table| && table[Slot(a, b, sys.n)] == if a < nd + 1 then sys.Kept(a, b) else 0
    {
      NewCell(sys, was, table, nd, a, b);
    }
    RowsAre(sys, table, nd + 1);
  }

  lemma TableSize(sys: System, table: seq<int>, nd: nat)
    requires |sys.files| == sys.n && RowsHold(sys, table, nd)
    ensures |table| == sys.n * sys.n
  {
  }

  lemma RowsAre(sys: System, table: seq<int>, nd: nat)
    requires |sys.files| == sys.n && |table| == sys.n * sys.n
    requires forall a: nat, b: nat :: a < sys.n && b < sys.n ==>
               Slot(a, b, sys.n) < |table| && table[Slot(a, b, sys.n)] == if a < nd then sys.Kept(a, b) else 0
    ensures RowsHold(sys, table, nd)
  {
    hide Slot, System.Kept;
  }

  lemma NewCell(sys: System, was: seq<int>, table: seq<int>, nd: nat, a: nat, b: nat)
    requires |sys.files| == sys.n && sys.IsRead(nd) && RowsHold(sys, was, nd) && |table| == |was|
    requires a < sys.n && b < sys.n
    requires forall k :: 0 <= k < |table| ==>
               table[k] == if nd * sys.n <= k
                           then Cell(sys.nodes, sys.n, Numbers(sys.files[nd].text, 0), k - nd * sys.n, was[k])
                           else was[k]
    requires forall b: nat, x :: b >= sys.n ==> Cell(sys.nodes, sys.n, Numbers(sys.files[nd].text, 0), b, x) == x
    requires forall b: nat :: b < sys.n ==>
               Cell(sys.nodes, sys.n, Numbers(sys.files[nd].text, 0), b, 0) == sys.Kept(nd, b)
    ensures Slot(a, b, sys.n) < |table| && table[Slot(a, b, sys.n)] == if a < nd + 1 then sys.Kept(a, b) else 0
  {
    hide Numbers, Slot, Cell, System.Kept;
    RowBounds(a, b, sys.n);
    RowSlots(nd, a, b, sys.n);
  }

  /** What the line of node nd puts into its row. */
  lemma NewCells(sys: System, nd: nat)
    requires sys.Tidy() && sys.IsRead(nd)
    ensures forall b: nat :: b < sys.n ==>
              Cell(sys.nodes, sys.n, Numbers(sys.files[nd].text, 0), b, 0) == sys.Kept(nd, b)
  {
    WithinRow(sys.nodes, sys.n, Numbers(sys.files[nd].text, 0));
    hide Numbers, Rank, Cell, Reach, System.Valid;
  }

  lemma AllRows(sys: System, table: seq<int>, nd: nat)
    requires |sys.files| == sys.n && RowsHold(sys, table, nd) && nd <= sys.n && (nd == sys.n || sys.files[nd].Empty?)
    ensures Holds(sys, table)
  {
    hide Numbers, Rank, Slot;
  }

  class Distances {
    var table: array?<int>
    var numnodes: nat

    /** A table that has been read holds what is to be kept. */
    ghost predicate Valid(sys: System)
      requires |sys.files| == sys.n
      reads this, table
    {
      table != null ==> sys.Succeeds() && numnodes == sys.n && Holds(sys, table[..])
    }

    constructor ()
      ensures table == null
    {
      table, numnodes := null, 0;
    }

    /** numa_distance, for all pairs of numbers: the table is read on the first call that needs it. */
    method NumaDistance(a: int, b: int, sys: System) returns (d: int)
      requires sys.Tidy() && Valid(sys)
      modifies this
      ensures Valid(sys) && (old(table) != null ==> table == old(table))
      ensures d == if sys.Succeeds() then sys.Kept(a, b) else 0
      ensures sys.WellFormed() ==> d == sys.Expected(a, b)
    {
      hide Rank, Numbers, Reach, System.Kept, System.Expected, System.Succeeds, System.WellFormed;
      if sys.WellFormed() { WellFormedKept(sys); }
      if table == null {
        var err, t := ReadTable(sys);
        if err < 0 || t == null {
          if err == 0 { NothingKept(sys, a, b); }
          return 0;
        }
        numnodes := sys.n;
        table := t;
      }
      if a < 0 || a >= numnodes || b < 0 || b >= numnodes {
        OutOfRange(sys, a, b);
        return 0;
      }
      RowBounds(a, b, numnodes);
      d := table[a * numnodes + b];
    }
  }

  lemma NothingKept(sys: System, a: int, b: int)
    requires |sys.files| == sys.n && forall x: nat :: !sys.IsRead(x)
    ensures sys.Kept(a, b) == 0
  {
  }

  lemma OutOfRange(sys: System, a: int, b: int)
    requires |sys.files| == sys.n && (a < 0 || a >= sys.n || b < 0 || b >= sys.n)
    ensures sys.Kept(a, b) == 0
  {
  }
}
