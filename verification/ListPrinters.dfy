/**
  The two printers of range lists in numactl, print_node_cpus and hardware().
 */
module ListPrinters {
  import opened CText
  import opened Bitmasks
  import opened Sets

  // ----- runs of members -----

  /** The end of the run of members that starts at i. */
  function RunEnd(s: set<nat>, n: nat, i: nat): (e: nat)
    requires i <= n
    ensures i <= e <= n && (forall k :: i <= k < e ==> k in s) && (e < n ==> e !in s)
    decreases n - i
  {
    if i < n && i in s then RunEnd(s, n, i + 1) else i
  }

  /** The next member at or after i, or n. */
  function NextMember(s: set<nat>, n: nat, i: nat): (m: nat)
    requires i <= n
    ensures i <= m <= n && (forall k :: i <= k < m ==> k !in s) && (m < n ==> m in s)
    decreases n - i
  {
    if i < n && i !in s then NextMember(s, n, i + 1) else i
  }

  function RangeText(a: nat, last: nat): Text {
    Decimal(a) + if a == last then [] else ['-'] + Decimal(last)
  }

  // ----- print_node_cpus -----

  /** The ranges from i on, each after a blank and separated by commas. */
  function CpuRanges(s: set<nat>, n: nat, i: nat, segment: bool): Text
    requires i <= n
    decreases n - i
  {
    var a := NextMember(s, n, i);
    if a == n then []
    else
      var e := RunEnd(s, n, a);
      Part(segment, a, e - 1) + CpuRanges(s, n, e, true)
  }

  /** print_node_cpus with --cpu-compress, up to the count that follows in parentheses. */
  method PrintNodeCpus(cpus: Bitmask) returns (out: Text, count: nat)
    requires cpus.Valid()
    ensures out == CpuRanges(cpus.Bits(), cpus.size, 0, false)
    ensures count == |cpus.Bits()|
  {
    ghost var s, n := cpus.Bits(), cpus.size;
    BeginList(s, n);
    hide *;
    var i, segment := 0, 0;
    out, count := [], 0;
    while i < cpus.size
      invariant i <= n && Printed(s, n, i, segment > 0, out, count)
    {
      i, segment, out, count := PrintNext(cpus, i, segment, out, count);
    }
    EndList(s, n, segment > 0, out, count);
  }

  /** One round of the outer loop: a cpu that is not in the mask, or a whole range. */
  method PrintNext(cpus: Bitmask, i0: nat, segment0: nat, out0: Text, count0: nat)
    returns (i: nat, segment: nat, out: Text, count: nat)
    requires cpus.Valid() && i0 < cpus.size && Printed(cpus.Bits(), cpus.size, i0, segment0 > 0, out0, count0)
    ensures i0 < i <= cpus.size && Printed(cpus.Bits(), cpus.size, i, segment > 0, out, count)
  {
    hide InWords, Members, RangeText, CpuRanges, RunEnd, Rank, Printed, Part;
    ghost var s, n := cpus.Bits(), cpus.size;
    segment, out, count := segment0, out0, count0;
    var start;
    start, i := FindRun(cpus, i0);
    if start == -1 {
      SkipOne(s, n, i, segment > 0, out, count);
      i := i + 1;
      return;
    }
    var end := i - 1;
    TakeRun(s, n, i0, segment > 0, out, count);
    out := EmitRange(out, segment > 0, start, end);
    count := count + (end - start) + 1;
    segment := segment + 1;
  }

  /** The text so far and what is still to come make the whole text, and the cpus so far are counted. */
  ghost predicate Printed(s: set<nat>, n: nat, i: nat, segment: bool, out: Text, count: nat) {
    && i <= n && (forall a :: a in s ==> a < n)
    && out + CpuRanges(s, n, i, segment) == CpuRanges(s, n, 0, false)
    && count == Rank(s, i)
  }

  lemma BeginList(s: set<nat>, n: nat)
    requires forall a :: a in s ==> a < n
    ensures Printed(s, n, 0, false, [], 0)
  {
    hide CpuRanges;
  }

  lemma EndList(s: set<nat>, n: nat, segment: bool, out: Text, count: nat)
    requires Printed(s, n, n, segment, out, count)
    ensures out == CpuRanges(s, n, 0, false) && count == |s|
  {
    RankIsCardinality(s, n);
    assert CpuRanges(s, n, n, segment) == [];
  }

  lemma SkipOne(s: set<nat>, n: nat, i: nat, segment: bool, out: Text, count: nat)
    requires Printed(s, n, i, segment, out, count) && i < n && i !in s
    ensures Printed(s, n, i + 1, segment, out, count)
  {
    hide RangeText, RunEnd;
  }

  lemma TakeRun(s: set<nat>, n: nat, i: nat, segment: bool, out: Text, count: nat)
    requires Printed(s, n, i, segment, out, count) && i < n && i in s
    ensures var e := RunEnd(s, n, i);
            e > i && Printed(s, n, e, true, out + Part(segment, i, e - 1), count + (e - i))
  {
    hide RangeText, Rank;
    var e := RunEnd(s, n, i);
    RankRun(s, i, e);
    FirstRange(s, n, i, segment);
    Together(out, Part(segment, i, e - 1), CpuRanges(s, n, e, true));
  }

  lemma {:induction false} RankRun(s: set<nat>, i: nat, e: nat)
    requires i <= e && forall k :: i <= k < e ==> k in s
    ensures Rank(s, e) == Rank(s, i) + (e - i)
  {
    if i < e { RankRun(s, i, e - 1); }
  }

  lemma Together(a: Text, b: Text, c: Text)
    ensures (a + b) + c == a + (b + c)
  {
  }

  lemma FirstRange(s: set<nat>, n: nat, i: nat, segment: bool)
    requires i < n && i in s
    ensures var e := RunEnd(s, n, i);
            e > i && CpuRanges(s, n, i, segment) == Part(segment, i, e - 1) + CpuRanges(s, n, e, true)
  {
    hide Part;
    assert i in s;
  }

  /** One range with what stands before it. */
  function Part(segment: bool, a: nat, last: nat): Text {
    (if segment then [','] else []) + ([' '] + RangeText(a, last))
  }

  method EmitRange(out: Text, segment: bool, start: nat, end: nat) returns (out': Text)
    ensures out' == out + Part(segment, start, end)
  {
    hide Decimal;
    out' := out;
    if segment { out' := out' + [',']; }
    if start == end {
      out' := out' + ([' '] + Decimal(start));
      assert Decimal(start) + [] == Decimal(start);
    } else {
      out' := out' + ([' '] + (Decimal(start) + (['-'] + Decimal(end))));
    }
  }

  /** The inner loop: the end of a run of cpus, with start -1 if there is none here. */
  method FindRun(cpus: Bitmask, i0: nat) returns (start: int, i: nat)
    requires cpus.Valid() && i0 < cpus.size
    ensures i == RunEnd(cpus.Bits(), cpus.size, i0)
    ensures if i0 in cpus.Bits() then start == i0 < i else start == -1 && i == i0
  {
    hide InWords, Members, Rank;
    ghost var s, n := cpus.Bits(), cpus.size;
    start, i := -1, i0;
    while i < cpus.size && cpus.IsBitSet(i)
      invariant i0 <= i <= n
      invariant if start == -1 then i == i0 else start == i0 < i
      invariant RunEnd(s, n, i0) == RunEnd(s, n, i)
    {
      if start == -1 { start := i; }
      i := i + 1;
    }
  }

  // ----- hardware() -----

  /** A range of nodes a..e; the end of the last range is only printed when it is the highest node n - 1. */
  function NodeRange(a: nat, e: nat, printEnd: bool): Text
    requires a < e
  {
    Decimal(a) + if e == a + 1 then [] else ['-'] + if printEnd then Decimal(e - 1) else []
  }

  /** The node list from i on, for nodes below n. */
  function NodeRanges(s: set<nat>, n: nat, i: nat): Text
    requires i <= n
    decreases n - i
  {
    var a := NextMember(s, n, i);
    if a == n then []
    else
      var e := RunEnd(s, n, a);
      var more := NextMember(s, n, e) < n;
      NodeRange(a, e, more || e == n) + if more then [','] + NodeRanges(s, n, e) else []
  }

  /** The loop of hardware() over the nodes up to maxnode. */
  method PrintNodes(nodes: Bitmask, maxnode: int) returns (out: Text)
    requires nodes.Valid() && maxnode >= -1
    ensures out == NodeRanges(nodes.Bits(), maxnode + 1, 0)
  {
    ghost var s, n: nat := nodes.Bits(), maxnode + 1;
    BeginNodes(s, n);
    hide *;
    var i, prevnode, skip := 0, -1, false;
    out := [];
    ghost var a: nat, before: Text := 0, [];
    while i <= maxnode
      invariant 0 <= i <= n && NodesPrinted(s, n, i, prevnode, skip, out, a, before)
    {
      prevnode, skip, out, a, before := PrintNode(nodes, maxnode, i, prevnode, skip, out, a, before);
      i := i + 1;
    }
    EndNodes(s, n, prevnode, skip, out, a, before);
  }

  /** The state of the loop in front of node i: prevnode is the last node so far, a the start of its range, and
      before the text in front of that range. */
  ghost predicate NodesPrinted(s: set<nat>, n: nat, i: nat, prevnode: int, skip: bool, out: Text,
                               a: nat, before: Text) {
    && i <= n
    && if prevnode < 0 then
         prevnode == -1 && !skip && out == [] && NextMember(s, n, 0) >= i
       else
         && prevnode < i && a <= prevnode && prevnode in s && RunStays(s, a, prevnode + 1)
         && (forall k :: prevnode < k < i ==> k !in s)
         && before + NodeRanges(s, n, a) == NodeRanges(s, n, 0)
         && skip == (a < prevnode)
         && out == before + NodeRange(a, prevnode + 1, prevnode == n - 1)
  }

  ghost predicate RunStays(s: set<nat>, a: nat, e: nat) {
    forall k :: a <= k < e ==> k in s
  }

  lemma BeginNodes(s: set<nat>, n: nat)
    ensures NodesPrinted(s, n, 0, -1, false, [], 0, [])
  {
  }

  lemma {:induction false} RunEndIs(s: set<nat>, n: nat, a: nat, e: nat)
    requires a <= e <= n && RunStays(s, a, e) && (e == n || e !in s)
    ensures RunEnd(s, n, a) == e
    decreases e - a
  {
    if a < e { RunEndIs(s, n, a + 1, e); }
  }

  lemma {:induction false} NextMemberIs(s: set<nat>, n: nat, i: nat, m: nat)
    requires i <= m <= n && (forall k :: i <= k < m ==> k !in s) && (m == n || m in s)
    ensures NextMember(s, n, i) == m
    decreases m - i
  {
    if i < m { NextMemberIs(s, n, i + 1, m); }
  }

  lemma NodeRangesAt(s: set<nat>, n: nat, a: nat, e: nat, m: nat)
    requires a < e <= m <= n && RunStays(s, a, e) && (e == n || e !in s)
    requires (forall k :: e <= k < m ==> k !in s) && (m == n || m in s)
    ensures NodeRanges(s, n, a) == NodeRange(a, e, m < n || e == n) + if m < n then [','] + NodeRanges(s, n, m) else []
  {
    hide NodeRange;
    assert a in s;
    NextMemberIs(s, n, a, a);
    RunEndIs(s, n, a, e);
    NextMemberIs(s, n, e, m);
    if m < n { NextMemberIs(s, n, m, m); }
  }

  lemma EndNodes(s: set<nat>, n: nat, prevnode: int, skip: bool, out: Text, a: nat, before: Text)
    requires NodesPrinted(s, n, n, prevnode, skip, out, a, before)
    ensures out == NodeRanges(s, n, 0)
  {
    hide NodeRange;
    if prevnode >= 0 {
      NodeRangesAt(s, n, a, prevnode + 1, n);
      assert NodeRange(a, prevnode + 1, prevnode == n - 1) + [] == NodeRange(a, prevnode + 1, prevnode == n - 1);
    }
  }

  /** The body of the loop for node i. */
  method PrintNode(nodes: Bitmask, maxnode: nat, i: nat, prevnode0: int, skip0: bool, out0: Text,
                   ghost a0: nat, ghost before0: Text)
    returns (prevnode: int, skip: bool, out: Text, ghost a: nat, ghost before: Text)
    requires nodes.Valid() && i <= maxnode
    requires NodesPrinted(nodes.Bits(), maxnode + 1, i, prevnode0, skip0, out0, a0, before0)
    ensures NodesPrinted(nodes.Bits(), maxnode + 1, i + 1, prevnode, skip, out, a, before)
  {
    hide *;
    ghost var s, n := nodes.Bits(), maxnode + 1;
    prevnode, skip, out, a, before := prevnode0, skip0, out0, a0, before0;
    var isNode := nodes.IsBitSet(i);
    if !isNode {
      NoNode(s, n, i, prevnode, skip, out, a, before);
      return;
    }
    Signs(s, n, i, prevnode, skip, out, a, before);
    if prevnode == -1 {
      FirstNode(s, n, i, a, before);
      out, prevnode, a, before := out + Decimal(i), i, i, [];
      return;
    }
    if i > prevnode + 1 {
      GapBefore(s, n, i, prevnode, skip, out, a, before);
      before := out0 + (if skip then Decimal(prevnode) else []) + [','];
      if skip {
        out := out + Decimal(prevnode);
        skip := false;
      }
      out := out + [','] + Decimal(i);
      prevnode, a := i, i;
      return;
    }
    NextNode(s, n, i, prevnode, skip, out, a, before);
    if i == prevnode + 1 {
      if !skip {
        out := out + ['-'];
        skip := true;
      }
      prevnode := i;
    }
    if i == maxnode && skip { out := out + Decimal(prevnode); }
  }

  lemma NoNode(s: set<nat>, n: nat, i: nat, prevnode: int, skip: bool, out: Text, a: nat, before: Text)
    requires i < n && i !in s && NodesPrinted(s, n, i, prevnode, skip, out, a, before)
    ensures NodesPrinted(s, n, i + 1, prevnode, skip, out, a, before)
  {
    hide NodeRange, NodeRanges;
  }

  lemma Signs(s: set<nat>, n: nat, i: nat, prevnode: int, skip: bool, out: Text, a: nat, before: Text)
    requires NodesPrinted(s, n, i, prevnode, skip, out, a, before)
    ensures prevnode == -1 || 0 <= prevnode < i
    ensures prevnode == -1 ==> out == [] && !skip && NextMember(s, n, 0) >= i
  {
  }

  lemma FirstNode(s: set<nat>, n: nat, i: nat, a: nat, before: Text)
    requires i < n && i in s && NextMember(s, n, 0) >= i
    ensures NodesPrinted(s, n, i + 1, i, false, [] + Decimal(i), i, [])
  {
    hide Decimal;
    assert NextMember(s, n, 0) == i;
    NextMemberIs(s, n, i, i);
  }

  lemma GapBefore(s: set<nat>, n: nat, i: nat, prevnode: int, skip: bool, out: Text, a: nat, before: Text)
    requires i < n && i in s && 0 <= prevnode && prevnode + 1 < i &&
             NodesPrinted(s, n, i, prevnode, skip, out, a, before)
    ensures var before' := out + (if skip then Decimal(prevnode) else []) + [','];
            NodesPrinted(s, n, i + 1, i, false,
                         (if skip then out + Decimal(prevnode) else out) + [','] + Decimal(i), i, before')
  {
    hide Decimal, NodeRanges;
    NodeRangesAt(s, n, a, prevnode + 1, i);
    var before' := out + (if skip then Decimal(prevnode) else []) + [','];
    assert before' == before + (NodeRange(a, prevnode + 1, true) + [',']);
    assert before' + NodeRanges(s, n, i) == before + (NodeRange(a, prevnode + 1, true) + ([','] + NodeRanges(s, n, i)));
    assert NodeRange(i, i + 1, i == n - 1) == Decimal(i);
    assert (if skip then out + Decimal(prevnode) else out) + [','] + Decimal(i) == before' + Decimal(i);
  }

  lemma NextNode(s: set<nat>, n: nat, i: nat, prevnode: int, skip: bool, out: Text, a: nat, before: Text)
    requires i < n && i in s && 0 <= prevnode && prevnode + 1 == i &&
             NodesPrinted(s, n, i, prevnode, skip, out, a, before)
    ensures var out' := if skip then out else out + ['-'];
            NodesPrinted(s, n, i + 1, i, true, if i == n - 1 then out' + Decimal(i) else out', a, before)
  {
    hide Decimal, NodeRanges;
  }

  // ----- what is printed -----

  /** Ranges a-b, or a alone, with lead in front of the first and sep in front of the others. */
  function RangesText(rs: seq<(nat, nat)>, lead: Text, sep: Text): Text {
    if rs == [] then []
    else
      var (a, b) := rs[0];
      lead + (Decimal(a) + if a == b then [] else ['-'] + Decimal(b)) + RangesText(rs[1..], sep, sep)
  }

  /** The maximal ranges of the members from i up to n, in order. */
  ghost predicate AreRanges(s: set<nat>, n: nat, i: nat, rs: seq<(nat, nat)>) {
    Spaced(n, i, rs) && Covers(s, n, i, rs)
  }

  /** In order, with a gap between any two. */
  ghost predicate Spaced(n: nat, i: nat, rs: seq<(nat, nat)>) {
    && (forall k :: 0 <= k < |rs| ==> i <= rs[k].0 <= rs[k].1 < n)
    && forall k :: 0 < k < |rs| ==> rs[k - 1].1 + 1 < rs[k].0
  }

  ghost predicate Covers(s: set<nat>, n: nat, i: nat, rs: seq<(nat, nat)>) {
    forall m: nat :: i <= m < n ==> (m in s <==> exists k :: 0 <= k < |rs| && rs[k].0 <= m <= rs[k].1)
  }

  lemma MoreRanges(s: set<nat>, n: nat, i: nat, a: nat, e: nat, rest: seq<(nat, nat)>)
    requires i <= a < e <= n && (forall k :: i <= k < a ==> k !in s) && (forall k :: a <= k < e ==> k in s)
    requires (e < n ==> e !in s) && AreRanges(s, n, e, rest)
    ensures AreRanges(s, n, i, [(a, e - 1)] + rest)
  {
    hide Spaced, Covers;
    if rest != [] { FirstInside(s, n, e, rest); }
    MoreSpaced(n, i, a, e, rest);
    MoreCovered(s, n, i, a, e, rest);
  }

  lemma MoreSpaced(n: nat, i: nat, a: nat, e: nat, rest: seq<(nat, nat)>)
    requires i <= a < e <= n && Spaced(n, e, rest) && (rest != [] ==> e < rest[0].0)
    ensures Spaced(n, i, [(a, e - 1)] + rest)
  {
    var rs := [(a, e - 1)] + rest;
    assert rs[0] == (a, e - 1) && forall k :: 0 < k < |rs| ==> rs[k] == rest[k - 1];
  }

  lemma MoreCovered(s: set<nat>, n: nat, i: nat, a: nat, e: nat, rest: seq<(nat, nat)>)
    requires i <= a < e <= n && (forall k :: i <= k < a ==> k !in s) && (forall k :: a <= k < e ==> k in s)
    requires Spaced(n, e, rest) && Covers(s, n, e, rest)
    ensures Covers(s, n, i, [(a, e - 1)] + rest)
  {
    var rs := [(a, e - 1)] + rest;
    forall m: nat | i <= m < n
      ensures m in s <==> exists k :: 0 <= k < |rs| && rs[k].0 <= m <= rs[k].1
    {
      MemberOfMore(s, n, i, a, e, rest, m);
    }
  }

  lemma FirstInside(s: set<nat>, n: nat, e: nat, rest: seq<(nat, nat)>)
    requires AreRanges(s, n, e, rest) && rest != []
    ensures e <= rest[0].0 < n && rest[0].0 in s
  {
  }

  lemma MemberOfMore(s: set<nat>, n: nat, i: nat, a: nat, e: nat, rest: seq<(nat, nat)>, m: nat)
    requires i <= a < e <= n && (forall k :: i <= k < a ==> k !in s) && (forall k :: a <= k < e ==> k in s)
    requires Spaced(n, e, rest) && Covers(s, n, e, rest) && i <= m < n
    ensures var rs := [(a, e - 1)] + rest;
            m in s <==> exists k :: 0 <= k < |rs| && rs[k].0 <= m <= rs[k].1
  {
    var rs := [(a, e - 1)] + rest;
    if m in s {
      if m < e {
        assert rs[0].0 <= m <= rs[0].1;
      } else {
        var k :| 0 <= k < |rest| && rest[k].0 <= m <= rest[k].1;
        assert rs[k + 1] == rest[k];
      }
    }
    if k :| 0 <= k < |rs| && rs[k].0 <= m <= rs[k].1 {
      if k > 0 { assert rs[k] == rest[k - 1]; }
    }
  }

  /** print_node_cpus prints the maximal ranges of cpus, each after a blank, with commas between them. */
  lemma {:induction false} CpuRangesText(s: set<nat>, n: nat, i: nat, segment: bool) returns (rs: seq<(nat, nat)>)
    requires i <= n
    ensures AreRanges(s, n, i, rs)
    ensures CpuRanges(s, n, i, segment) == RangesText(rs, if segment then ", " else " ", ", ")
    decreases n - i
  {
    hide Decimal;
    var a := NextMember(s, n, i);
    if a == n {
      rs := [];
    } else {
      var e := RunEnd(s, n, a);
      var rest := CpuRangesText(s, n, e, true);
      rs := [(a, e - 1)] + rest;
      MoreRanges(s, n, i, a, e, rest);
      assert rs[1..] == rest;
      OneRange(segment, a, e - 1);
    }
  }

  lemma OneRange(segment: bool, a: nat, last: nat)
    ensures Part(segment, a, last) ==
              (if segment then ", " else " ") + (Decimal(a) + if a == last then [] else ['-'] + Decimal(last))
  {
    hide Decimal;
    assert ", " == [','] + [' '];
  }

  lemma FirstText(a: nat, last: nat, rest: seq<(nat, nat)>, lead: Text, sep: Text)
    ensures RangesText([(a, last)] + rest, lead, sep) == lead + OneText(a, last) + RangesText(rest, sep, sep)
  {
    hide Decimal;
    assert ([(a, last)] + rest)[1..] == rest;
  }

  function OneText(a: nat, last: nat): Text {
    Decimal(a) + if a == last then [] else ['-'] + Decimal(last)
  }

  /** With the highest node as the maximum, hardware() prints the maximal ranges of nodes with commas between them. */
  lemma {:induction false} NodeRangesText(s: set<nat>, n: nat, i: nat, lead: Text) returns (rs: seq<(nat, nat)>)
    requires i < n && n - 1 in s
    ensures AreRanges(s, n, i, rs) && lead + NodeRanges(s, n, i) == RangesText(rs, lead, ",")
    decreases n - i
  {
    hide Decimal, NodeRanges, NodeRange, RangesText, AreRanges, OneText;
    var a := NextMember(s, n, i);
    var e := RunEnd(s, n, a);
    var m := NextMember(s, n, e);
    NodeRangesBegin(s, n, i);
    if m < n {
      var rest := NodeRangesText(s, n, e, ",");
      rs := [(a, e - 1)] + rest;
      MoreRanges(s, n, i, a, e, rest);
      FirstText(a, e - 1, rest, lead, ",");
      Together(lead, OneText(a, e - 1), "," + NodeRanges(s, n, e));
    } else {
      assert e == n;
      NoRangesLeft(s, n);
      rs := [(a, e - 1)] + [];
      MoreRanges(s, n, i, a, e, []);
      FirstText(a, e - 1, [], lead, ",");
      Together(lead, OneText(a, e - 1), []);
    }
  }

  lemma NoRangesLeft(s: set<nat>, n: nat)
    ensures AreRanges(s, n, n, []) && RangesText([], ",", ",") == []
  {
  }

  lemma NodeRangesBegin(s: set<nat>, n: nat, i: nat)
    requires i < n && n - 1 in s
    ensures var a := NextMember(s, n, i);
            a < n && var e := RunEnd(s, n, a);
            var m := NextMember(s, n, e);
            a < e && (m < n || e == n)
            && NodeRanges(s, n, i) == OneText(a, e - 1) + if m < n then "," + NodeRanges(s, n, e) else []
  {
    hide Decimal;
    var a := NextMember(s, n, i);
    assert NodeRange(a, RunEnd(s, n, a), true) == OneText(a, RunEnd(s, n, a) - 1);
  }
}
