/**
  dump_shm and dump_shm_nodes: per-page answers of the kernel, printed as intervals of equal pages.
 */
module ShmDump {

  const MPOL_DEFAULT: int := 0

  /** The kernel's answer for a page. */
  datatype Page = Page(policy: int, nodes: set<nat>)

  /** Pages start..end, all with the same answer. */
  datatype Run<V> = Run(start: nat, end: nat, value: V)

  ghost predicate IsRun<V>(pages: seq<V>, r: Run<V>) {
    r.start < r.end <= |pages| && forall i :: r.start <= i < r.end ==> pages[i] == r.value
  }

  /** The runs cut the pages into maximal pieces of equal pages. */
  ghost predicate IsCut<V>(pages: seq<V>, runs: seq<Run<V>>) {
    && (runs == [] <==> pages == [])
    && (runs != [] ==> runs[0].start == 0 && runs[|runs| - 1].end == |pages|)
    && (forall r :: 0 <= r < |runs| ==> IsRun(pages, runs[r]))
    && (forall r :: 0 < r < |runs| ==> runs[r - 1].end == runs[r].start && runs[r - 1].value != runs[r].value)
  }

  /** The cut, page by page: a page like the last run lengthens it, another page starts a run. */
  function Runs<V(==)>(pages: seq<V>): (runs: seq<Run<V>>)
    ensures runs == [] <==> pages == []
  {
    if pages == [] then []
    else
      var n, runs := |pages| - 1, Runs(pages[..|pages| - 1]);
      if runs != [] && runs[|runs| - 1].value == pages[n]
      then runs[..|runs| - 1] + [runs[|runs| - 1].(end := n + 1)]
      else runs + [Run(n, n + 1, pages[n])]
  }

  lemma {:induction false} Ordered<V>(pages: seq<V>, runs: seq<Run<V>>, r: nat, t: nat)
    requires IsCut(pages, runs) && r < t < |runs|
    ensures runs[r].end <= runs[t].start
  {
    if r + 1 < t {
      Ordered(pages, runs, r, t - 1);
      assert IsRun(pages, runs[t - 1]);
    }
  }

  lemma CutNext<V>(pages: seq<V>, runs: seq<Run<V>>, v: V)
    requires IsCut(pages, runs)
    ensures IsCut(pages + [v], if runs != [] && runs[|runs| - 1].value == v
                               then runs[..|runs| - 1] + [runs[|runs| - 1].(end := |pages| + 1)]
                               else runs + [Run(|pages|, |pages| + 1, v)])
  {
    if runs != [] && runs[|runs| - 1].value == v {
      CutLonger(pages, runs, v);
    } else {
      CutMore(pages, runs, v);
    }
  }

  lemma RunLasts<V>(pages: seq<V>, runs: seq<Run<V>>, v: V)
    requires IsCut(pages, runs)
    ensures forall r :: 0 <= r < |runs| ==> IsRun(pages + [v], runs[r])
  {
    forall r | 0 <= r < |runs|
      ensures IsRun(pages + [v], runs[r])
    {
      assert IsRun(pages, runs[r]);
    }
  }

  lemma CutLonger<V>(pages: seq<V>, runs: seq<Run<V>>, v: V)
    requires IsCut(pages, runs) && runs != [] && runs[|runs| - 1].value == v
    ensures IsCut(pages + [v], runs[..|runs| - 1] + [runs[|runs| - 1].(end := |pages| + 1)])
  {
    RunLasts(pages, runs, v);
    assert IsRun(pages + [v], runs[|runs| - 1].(end := |pages| + 1));
    hide IsRun;
  }

  lemma CutMore<V>(pages: seq<V>, runs: seq<Run<V>>, v: V)
    requires IsCut(pages, runs) && (runs != [] ==> runs[|runs| - 1].value != v)
    ensures IsCut(pages + [v], runs + [Run(|pages|, |pages| + 1, v)])
  {
    RunLasts(pages, runs, v);
    assert IsRun(pages + [v], Run(|pages|, |pages| + 1, v));
    hide IsRun;
  }

  lemma {:induction false} RunsIsCut<V>(pages: seq<V>)
    ensures IsCut(pages, Runs(pages))
  {
    hide IsCut;
    if pages == [] {
      EmptyCut<V>();
    } else {
      var shorter := pages[..|pages| - 1];
      RunsIsCut(shorter);
      CutNext(shorter, Runs(shorter), pages[|pages| - 1]);
      assert shorter + [pages[|pages| - 1]] == pages;
    }
  }

  lemma EmptyCut<V>()
    ensures IsCut<V>([], [])
  {
  }

  /** A cut without its last page is a cut of the other pages. */
  lemma CutBefore<V>(pages: seq<V>, a: seq<Run<V>>)
    requires IsCut(pages, a) && pages != []
    ensures a[|a| - 1].start < a[|a| - 1].end && IsCut(pages[..|pages| - 1], ShorterCut(a))
  {
    var front, last, shorter := a[..|a| - 1], a[|a| - 1], pages[..|pages| - 1];
    assert IsRun(pages, last);
    forall r | 0 <= r < |front|
      ensures IsRun(shorter, front[r])
    {
      Ordered(pages, a, r, |a| - 1);
      assert IsRun(pages, a[r]);
    }
    if last.end == last.start + 1 {
      if front == [] { assert shorter == []; }
      if front != [] { assert IsRun(shorter, front[0]); }
    } else {
      assert IsRun(shorter, last.(end := last.end - 1));
    }
  }

  /** It is the only way to cut the pages into maximal runs. */
  lemma {:induction false} CutIsRuns<V>(pages: seq<V>, a: seq<Run<V>>)
    requires IsCut(pages, a)
    ensures a == Runs(pages)
    decreases |pages|
  {
    if pages != [] {
      CutBefore(pages, a);
      LastOfCut(pages, a);
      hide *;
      CutIsRuns(pages[..|pages| - 1], ShorterCut(a));
      Lengthen(pages, a);
    }
  }

  /** A cut without its last page. */
  function ShorterCut<V>(a: seq<Run<V>>): seq<Run<V>>
    requires a != [] && a[|a| - 1].start < a[|a| - 1].end
  {
    var last := a[|a| - 1];
    if last.end == last.start + 1 then a[..|a| - 1] else a[..|a| - 1] + [last.(end := last.end - 1)]
  }

  lemma Lengthen<V>(pages: seq<V>, a: seq<Run<V>>)
    requires pages != [] && a != [] && a[|a| - 1].start < a[|a| - 1].end == |pages|
    requires pages[|pages| - 1] == a[|a| - 1].value
    requires |a| > 1 ==> a[|a| - 2].value != a[|a| - 1].value
    requires ShorterCut(a) == Runs(pages[..|pages| - 1])
    ensures a == Runs(pages)
  {
    var last, runs := a[|a| - 1], ShorterCut(a);
    Restored(a, runs);
    RunsUnfold(pages);
    hide Runs, ShorterCut;
    if last.end == last.start + 1 {
      assert last == Run(|pages| - 1, |pages|, pages[|pages| - 1]);
      assert runs != [] ==> runs[|runs| - 1] == a[|a| - 2];
    }
  }

  lemma Restored<V>(a: seq<Run<V>>, runs: seq<Run<V>>)
    requires a != [] && a[|a| - 1].start < a[|a| - 1].end && runs == ShorterCut(a)
    ensures var last := a[|a| - 1];
            && (last.end == last.start + 1 ==> runs == a[..|a| - 1] && runs + [last] == a)
            && (last.end > last.start + 1 ==>
                  && runs != [] && runs[|runs| - 1].value == last.value
                  && runs[..|runs| - 1] + [runs[|runs| - 1].(end := last.end)] == a)
  {
    var front, last := a[..|a| - 1], a[|a| - 1];
    assert a == front + [last];
    if last.end > last.start + 1 { assert runs[..|runs| - 1] == front; }
  }

  lemma LastOfCut<V>(pages: seq<V>, a: seq<Run<V>>)
    requires IsCut(pages, a) && pages != []
    ensures a != [] && a[|a| - 1].start < a[|a| - 1].end == |pages| && pages[|pages| - 1] == a[|a| - 1].value
    ensures |a| > 1 ==> a[|a| - 2].value != a[|a| - 1].value
  {
    assert IsRun(pages, a[|a| - 1]);
  }

  lemma RunsUnfold<V>(pages: seq<V>)
    requires pages != []
    ensures var n, runs := |pages| - 1, Runs(pages[..|pages| - 1]);
            Runs(pages) == if runs != [] && runs[|runs| - 1].value == pages[n]
                           then runs[..|runs| - 1] + [runs[|runs| - 1].(end := n + 1)]
                           else runs + [Run(n, n + 1, pages[n])]
  {
  }

  // ----- printing -----

  /** An interval as printed, in bytes of the file the segment is in; shmoffset is where the segment begins. */
  datatype Line<V> = Line(start: nat, end: nat, value: V)

  function Bytes<V>(runs: seq<Run<V>>, size: nat, shmoffset: nat): (ls: seq<Line<V>>)
    ensures |ls| == |runs|
  {
    if runs == [] then []
    else Bytes(runs[..|runs| - 1], size, shmoffset) + [ToLine(runs[|runs| - 1], size, shmoffset)]
  }

  function ToLine<V>(r: Run<V>, size: nat, shmoffset: nat): Line<V> {
    Line(shmoffset + r.start * size, shmoffset + r.end * size, r.value)
  }

  /** dumppol prints nothing for the default policy. */
  function Shown(runs: seq<Run<Page>>): seq<Run<Page>> {
    if runs == [] then []
    else Shown(runs[..|runs| - 1]) + if runs[|runs| - 1].value.policy == MPOL_DEFAULT then [] else [runs[|runs| - 1]]
  }

  lemma BytesAppend<V>(runs: seq<Run<V>>, r: Run<V>, size: nat, shmoffset: nat)
    ensures Bytes(runs + [r], size, shmoffset) == Bytes(runs, size, shmoffset) + [ToLine(r, size, shmoffset)]
  {
    assert (runs + [r])[..|runs|] == runs;
  }

  lemma ShownAppend(runs: seq<Run<Page>>, r: Run<Page>)
    ensures Shown(runs + [r]) == Shown(runs) + if r.value.policy == MPOL_DEFAULT then [] else [r]
  {
    assert (runs + [r])[..|runs|] == runs;
  }

  /** The segment's pages: one for every started page size. */
  ghost predicate Covers(shmlen: nat, size: nat, n: nat) {
    size > 0 && shmlen <= n * size && (n > 0 ==> (n - 1) * size < shmlen)
  }

  lemma PageInSegment(shmlen: nat, size: nat, n: nat, k: nat)
    requires Covers(shmlen, size, n) && k <= n
    ensures k * size < shmlen <==> k < n
    ensures (k + 1) * size == k * size + size
  {
    if k < n { Times(k, n - 1, size); }
  }

  lemma Times(a: nat, b: nat, size: nat)
    requires a <= b
    ensures a * size <= b * size
  {
  }

  method DumpPol(out: seq<Line<Page>>, shmoffset: nat, start: nat, end: nat, policy: int, nodes: set<nat>)
    returns (out': seq<Line<Page>>)
    ensures out' == if policy == MPOL_DEFAULT then out 
              else out + [Line(shmoffset + start, shmoffset + end, Page(policy, nodes))]
  {
    if policy == MPOL_DEFAULT { return out; }
    out' := out + [Line(shmoffset + start, shmoffset + end, Page(policy, nodes))];
  }

  /** dump_shm: one interval for each maximal run of pages whose policy is not the default. */
  method DumpShm(pages: seq<Page>, shmlen: nat, size: nat, shmoffset: nat) returns (out: seq<Line<Page>>)
    requires Covers(shmlen, size, |pages|)
    requires forall i :: 0 <= i < |pages| ==> pages[i].policy >= 0
    ensures out == Bytes(Shown(Runs(pages)), size, shmoffset)
  {
    hide Runs, Shown, Bytes, Dumped;
    out := [];
    PageInSegment(shmlen, size, |pages|, 0);
    EmptyDump(size, shmoffset);
    if shmlen == 0 { return; }
    var prevpol, prevnodes: set<nat> := -1, {};
    var c, start := 0, 0;
    var k := 0;  // the page at address c
    ghost var first, done: seq<Run<Page>> := 0, [];
    BeginDump(pages);
    while c < shmlen
      invariant k <= |pages| && c == k * size && start == first * size
      invariant out == Bytes(Shown(done), size, shmoffset)
      invariant Dumped(pages, k, done, first, prevpol, prevnodes)
      decreases |pages| - k
    {
      PageInSegment(shmlen, size, |pages|, k);
      var page := pages[k];
      DumpNext(pages, k, done, first, prevpol, prevnodes);
      if !(page.policy == prevpol && prevnodes == page.nodes) {
        if prevpol != -1 {
          PrintRun(done, Run(first, k, Page(prevpol, prevnodes)), size, shmoffset);
          done := done + [Run(first, k, Page(prevpol, prevnodes))];
          out := DumpPol(out, shmoffset, start, c, prevpol, prevnodes);
        }
        prevpol, prevnodes := page.policy, page.nodes;
        start, first := c, k;
      }
      k := k + 1;
      c := c + size;
    }
    PageInSegment(shmlen, size, |pages|, k);
    DumpLast(pages, k, done, first, prevpol, prevnodes);
    PrintRun(done, Run(first, k, Page(prevpol, prevnodes)), size, shmoffset);
    out := DumpPol(out, shmoffset, start, c, prevpol, prevnodes);
  }

  /** The runs of the first k pages: those done, and one from first on that has not been printed yet. */
  ghost predicate Dumped(pages: seq<Page>, k: nat, done: seq<Run<Page>>, first: nat,
                         prevpol: int, prevnodes: set<nat>) {
    && k <= |pages|
    && if k == 0 then prevpol == -1 && done == [] && first == 0
       else prevpol != -1 && Runs(pages[..k]) == done + [Run(first, k, Page(prevpol, prevnodes))]
  }

  lemma BeginDump(pages: seq<Page>)
    ensures Dumped(pages, 0, [], 0, -1, {})
  {
  }

  lemma DumpNext(pages: seq<Page>, k: nat, done: seq<Run<Page>>, first: nat, prevpol: int, prevnodes: set<nat>)
    requires Dumped(pages, k, done, first, prevpol, prevnodes) && k < |pages| && pages[k].policy >= 0
    ensures var same := pages[k].policy == prevpol && prevnodes == pages[k].nodes;
            var done' := if prevpol == -1 then done else done + [Run(first, k, Page(prevpol, prevnodes))];
            && (same ==> Dumped(pages, k + 1, done, first, prevpol, prevnodes))
            && (!same ==> Dumped(pages, k + 1, done', k, pages[k].policy, pages[k].nodes))
  {
    hide Runs;
    RunsNext(pages, k);
  }

  lemma DumpLast(pages: seq<Page>, k: nat, done: seq<Run<Page>>, first: nat, prevpol: int, prevnodes: set<nat>)
    requires Dumped(pages, k, done, first, prevpol, prevnodes) && k == |pages| > 0
    ensures Runs(pages) == done + [Run(first, k, Page(prevpol, prevnodes))]
  {
    hide Runs;
    assert pages[..k] == pages;
  }

  lemma EmptyDump(size: nat, shmoffset: nat)
    ensures Shown(Runs([])) == [] && Shown([]) == []
    ensures Bytes<Page>([], size, shmoffset) == [] && Bytes<int>([], size, shmoffset) == []
  {
  }

  lemma PrintRun(done: seq<Run<Page>>, r: Run<Page>, size: nat, shmoffset: nat)
    ensures Bytes(Shown(done + [r]), size, shmoffset) ==
              Bytes(Shown(done), size, shmoffset)
              + if r.value.policy == MPOL_DEFAULT then [] else [ToLine(r, size, shmoffset)]
  {
    hide Shown, Bytes;
    ShownAppend(done, r);
    assert Shown(done) + [] == Shown(done);
    BytesAppend(Shown(done), r, size, shmoffset);
  }

  lemma RunsNext<V>(pages: seq<V>, k: nat)
    requires k < |pages|
    ensures var runs := Runs(pages[..k]);
            Runs(pages[..k + 1]) == if runs != [] && runs[|runs| - 1].value == pages[k]
                                    then runs[..|runs| - 1] + [runs[|runs| - 1].(end := k + 1)]
                                    else runs + [Run(k, k + 1, pages[k])]
    ensures k == 0 ==> Runs(pages[..k]) == []
  {
    assert pages[..k + 1][..k] == pages[..k];
  }

  /** dump_shm_nodes: one interval for each maximal run of pages on the same node. */
  method DumpShmNodes(nodes: seq<int>, shmlen: nat, size: nat, shmoffset: nat) returns (out: seq<Line<int>>)
    requires Covers(shmlen, size, |nodes|)
    requires forall i :: 0 <= i < |nodes| ==> nodes[i] >= 0
    ensures out == Bytes(Runs(nodes), size, shmoffset)
  {
    hide Runs, Bytes;
    out := [];
    PageInSegment(shmlen, size, |nodes|, 0);
    EmptyDump(size, shmoffset);
    if shmlen == 0 { return; }
    var prevnode := -1;
    var c, start := 0, 0;
    var k := 0;  // the page at address c
    ghost var first, done: seq<Run<int>> := 0, [];
    while c < shmlen
      invariant k <= |nodes| && c == k * size && start == first * size
      invariant out == Bytes(done, size, shmoffset)
      invariant if k == 0 then prevnode == -1 && done == [] && first == 0
                else prevnode != -1 && Runs(nodes[..k]) == done + [Run(first, k, prevnode)]
      decreases |nodes| - k
    {
      PageInSegment(shmlen, size, |nodes|, k);
      var node := nodes[k];
      RunsNext(nodes, k);
      if node != prevnode {
        if prevnode != -1 {
          BytesAppend(done, Run(first, k, prevnode), size, shmoffset);
          done := done + [Run(first, k, prevnode)];
          out := out + [Line(shmoffset + start, shmoffset + c, prevnode)];
        }
        prevnode := node;
        start, first := c, k;
      }
      k := k + 1;
      c := c + size;
    }
    PageInSegment(shmlen, size, |nodes|, k);
    assert nodes[..k] == nodes;
    BytesAppend(done, Run(first, k, prevnode), size, shmoffset);
    out := out + [Line(shmoffset + start, shmoffset + c, prevnode)];
  }

  // ----- reading the intervals back -----

  /** What the runs say about page i. */
  function Said<V>(runs: seq<Run<V>>, i: nat): seq<V> {
    if runs == [] then []
    else
      var r := runs[|runs| - 1];
      Said(runs[..|runs| - 1], i) + if r.start <= i < r.end then [r.value] else []
  }

  lemma {:induction false} SaidOnce<V>(pages: seq<V>, runs: seq<Run<V>>, k: nat, i: nat)
    requires IsCut(pages, runs) && k <= |runs| && i < |pages|
    ensures Said(runs[..k], i) == if k > 0 && i < runs[k - 1].end then [pages[i]] else []
  {
    if k > 0 {
      SaidOnce(pages, runs, k - 1, i);
      assert runs[..k][..k - 1] == runs[..k - 1];
      assert IsRun(pages, runs[k - 1]);
    }
  }

  lemma SaidWhole<V>(pages: seq<V>, runs: seq<Run<V>>, i: nat)
    requires IsCut(pages, runs) && i < |pages|
    ensures Said(runs, i) == [pages[i]]
  {
    SaidOnce(pages, runs, |runs|, i);
    hide Said;
    assert runs[..|runs|] == runs;
  }

  lemma {:induction false} ShownSaid(runs: seq<Run<Page>>, i: nat, p: Page)
    requires Said(runs, i) == [p] || Said(runs, i) == []
    ensures Said(Shown(runs), i) == if Said(runs, i) == [] || p.policy == MPOL_DEFAULT then [] else [p]
  {
    if runs != [] {
      var r, front := runs[|runs| - 1], runs[..|runs| - 1];
      var here := if r.start <= i < r.end then [r.value] else [];
      assert Said(runs, i) == Said(front, i) + here;
      assert here != [] ==> |Said(front, i)| == 0 && Said(runs, i)[0] == r.value;
      ShownSaid(front, i, p);
      if r.value.policy != MPOL_DEFAULT {
        assert Shown(runs) == Shown(front) + [r];
        assert (Shown(front) + [r])[..|Shown(front)|] == Shown(front);
        assert Said(Shown(runs), i) == Said(Shown(front), i) + here;
      } else {
        assert Shown(runs) == Shown(front);
      }
    }
  }

  /** The printed intervals give every page back: they name its policy and mask exactly once if the policy is
      not the default, and do not mention the page otherwise. */
  lemma IntervalsGiveBackPages(pages: seq<Page>, i: nat)
    requires i < |pages|
    ensures Said(Shown(Runs(pages)), i) == if pages[i].policy == MPOL_DEFAULT then [] else [pages[i]]
  {
    hide Runs, Said, Shown;
    var runs := Runs(pages);
    RunsIsCut(pages);
    SaidWhole(pages, runs, i);
    ShownSaid(runs, i, pages[i]);
  }

  // ----- the lines, address by address -----

  /** Nonempty intervals, one behind the other within the segment; neighbours that touch differ. */
  ghost predicate Apart<V>(lines: seq<Line<V>>, from: nat, to: nat) {
    && (forall j :: 0 <= j < |lines| ==> from <= lines[j].start < lines[j].end <= to)
    && forall j :: 0 < j < |lines| ==>
         && lines[j - 1].end <= lines[j].start
         && (lines[j - 1].end == lines[j].start ==> lines[j - 1].value != lines[j].value)
  }

  /** Some line gives address x the value v. */
  ghost predicate Says<V>(lines: seq<Line<V>>, x: nat, v: V) {
    exists j :: 0 <= j < |lines| && lines[j].start <= x < lines[j].end && lines[j].value == v
  }

  /** What dump_shm prints, for every address of the segment: a line covers it exactly if the policy of its page is not
      the default, and then says the policy and the mask of that page. The lines go up, do not overlap, and are not
      split without need. */
  lemma DumpByAddress(pages: seq<Page>, size: nat, shmoffset: nat, x: nat, v: Page)
    requires size > 0 && x < |pages| * size
    ensures x / size < |pages|
    ensures var lines := Bytes(Shown(Runs(pages)), size, shmoffset);
            && (Says(lines, shmoffset + x, v) <==> v == pages[x / size] && v.policy != 0)
            && Apart(lines, shmoffset, shmoffset + |pages| * size)
  {
    hide Runs, Shown, Bytes, Apart, Said, Says, IsCut, RunsApart;
    PageOf(x, size, |pages|);
    var runs := Runs(pages);
    RunsIsCut(pages);
    CutIsApart(pages, runs);
    ShownIsApart(runs, |pages|);
    BytesApart(Shown(runs), |pages|, size, shmoffset);
    IntervalsGiveBackPages(pages, x / size);
    SaidByLine(Shown(runs), x, size, shmoffset, v);
  }

  /** What dump_shm_nodes prints: every address of the segment is covered, with the node of its page. */
  lemma NodesByAddress(nodes: seq<int>, size: nat, shmoffset: nat, x: nat, v: int)
    requires size > 0 && x < |nodes| * size
    ensures x / size < |nodes|
    ensures var lines := Bytes(Runs(nodes), size, shmoffset);
            && (Says(lines, shmoffset + x, v) <==> v == nodes[x / size])
            && Apart(lines, shmoffset, shmoffset + |nodes| * size)
  {
    hide Runs, Bytes, Apart, Said, Says, IsCut, RunsApart;
    PageOf(x, size, |nodes|);
    var runs := Runs(nodes);
    RunsIsCut(nodes);
    CutIsApart(nodes, runs);
    BytesApart(runs, |nodes|, size, shmoffset);
    SaidWhole(nodes, runs, x / size);
    SaidByLine(runs, x, size, shmoffset, v);
  }

  lemma PageOf(x: nat, size: nat, n: nat)
    requires size > 0 && x < n * size
    ensures x / size < n
  {
    if x / size >= n { Times(n, x / size, size); }
  }

  /** Runs of pages, one behind the other. */
  ghost predicate RunsApart<V>(runs: seq<Run<V>>, n: nat) {
    && (forall j :: 0 <= j < |runs| ==> runs[j].start < runs[j].end <= n)
    && forall j :: 0 < j < |runs| ==>
         && runs[j - 1].end <= runs[j].start
         && (runs[j - 1].end == runs[j].start ==> runs[j - 1].value != runs[j].value)
  }

  lemma CutIsApart<V>(pages: seq<V>, runs: seq<Run<V>>)
    requires IsCut(pages, runs)
    ensures RunsApart(runs, |pages|)
  {
    assert forall j :: 0 <= j < |runs| ==> IsRun(pages, runs[j]);
  }

  lemma AppendApart<V>(runs: seq<Run<V>>, r: Run<V>, n: nat)
    requires RunsApart(runs, n) && r.start < r.end <= n
    requires runs != [] ==>
               var last := runs[|runs| - 1]; last.end <= r.start && (last.end == r.start ==> last.value != r.value)
    ensures RunsApart(runs + [r], n)
  {
    var more := runs + [r];
    assert forall j :: 0 <= j < |runs| ==> more[j] == runs[j];
    assert more[|runs|] == r;
  }

  lemma FrontApart<V>(runs: seq<Run<V>>, n: nat)
    requires RunsApart(runs, n) && runs != []
    ensures RunsApart(runs[..|runs| - 1], n)
    ensures var r := runs[|runs| - 1]; r.start < r.end <= n
    ensures |runs| > 1 ==>
              var f, r := runs[|runs| - 2], runs[|runs| - 1];
              f.end <= r.start && (f.end == r.start ==> f.value != r.value)
  {
  }

  /** The last run that is printed is the last run, or ends before it does. */
  ghost predicate LastShown(runs: seq<Run<Page>>, shown: seq<Run<Page>>) {
    shown != [] ==>
      && runs != []
      && (shown[|shown| - 1] == runs[|runs| - 1] || shown[|shown| - 1].end <= runs[|runs| - 1].start)
  }

  lemma {:induction false} ShownIsApart(runs: seq<Run<Page>>, n: nat)
    requires RunsApart(runs, n)
    ensures RunsApart(Shown(runs), n) && LastShown(runs, Shown(runs))
  {
    if runs != [] {
      hide RunsApart;
      var front, r := runs[..|runs| - 1], runs[|runs| - 1];
      FrontApart(runs, n);
      ShownIsApart(front, n);
      var shown := Shown(front);
      if front != [] {
        assert front[|front| - 1] == runs[|runs| - 2];
        LastIsRun(front, n);
      }
      assert Shown(runs) == if r.value.policy == MPOL_DEFAULT then shown else shown + [r];
      hide Shown;
      if r.value.policy != MPOL_DEFAULT {
        AppendApart(shown, r, n);
        assert (shown + [r])[|shown|] == r;
      }
    }
  }

  lemma LastIsRun<V>(runs: seq<Run<V>>, n: nat)
    requires RunsApart(runs, n) && runs != []
    ensures runs[|runs| - 1].start < runs[|runs| - 1].end
  {
  }

  lemma {:induction false} BytesAt<V>(runs: seq<Run<V>>, size: nat, shmoffset: nat, j: nat)
    requires j < |runs|
    ensures Bytes(runs, size, shmoffset)[j] == ToLine(runs[j], size, shmoffset)
  {
    if j < |runs| - 1 { BytesAt(runs[..|runs| - 1], size, shmoffset, j); }
  }

  lemma BytesApart<V>(runs: seq<Run<V>>, n: nat, size: nat, shmoffset: nat)
    requires size > 0 && RunsApart(runs, n)
    ensures Apart(Bytes(runs, size, shmoffset), shmoffset, shmoffset + n * size)
  {
    hide Bytes;
    var lines := Bytes(runs, size, shmoffset);
    forall j | 0 <= j < |runs|
      ensures lines[j] == ToLine(runs[j], size, shmoffset)
      ensures shmoffset <= lines[j].start < lines[j].end <= shmoffset + n * size
    {
      BytesAt(runs, size, shmoffset, j);
      Grows(runs[j].start, runs[j].end, size);
      Times(runs[j].end, n, size);
    }
    forall j | 0 < j < |runs|
      ensures lines[j - 1].end <= lines[j].start
      ensures lines[j - 1].end == lines[j].start ==> lines[j - 1].value != lines[j].value
    {
      if runs[j - 1].end < runs[j].start { Grows(runs[j - 1].end, runs[j].start, size); }
    }
  }

  lemma Grows(a: nat, b: nat, size: nat)
    requires a < b && size > 0
    ensures a * size < b * size
  {
    Times(a + 1, b, size);
  }

  /** A run of pages contains the page of an address exactly if its bytes contain the address. */
  lemma InRun(start: nat, end: nat, x: nat, size: nat)
    requires size > 0
    ensures start <= x / size < end <==> start * size <= x < end * size
  {
    var q := x / size;
    assert q * size <= x < q * size + size;
    if start <= q { Times(start, q, size); } else { Times(q + 1, start, size); }
    if q < end { Times(q + 1, end, size); } else { Times(end, q, size); }
  }

  lemma {:induction false} SaidByLine<V>(runs: seq<Run<V>>, x: nat, size: nat, shmoffset: nat, v: V)
    requires size > 0
    ensures Says(Bytes(runs, size, shmoffset), shmoffset + x, v) <==> v in Said(runs, x / size)
  {
    var lines := Bytes(runs, size, shmoffset);
    if runs != [] {
      var front, r := runs[..|runs| - 1], runs[|runs| - 1];
      SaidByLine(front, x, size, shmoffset, v);
      InRun(r.start, r.end, x, size);
      var before := Bytes(front, size, shmoffset);
      assert lines == before + [ToLine(r, size, shmoffset)];
      if Says(before, shmoffset + x, v) {
        var j :| 0 <= j < |before| && before[j].start <= shmoffset + x < before[j].end && before[j].value == v;
        assert lines[j] == before[j];
      }
      assert lines[|before|] == ToLine(r, size, shmoffset);
      if Says(lines, shmoffset + x, v) {
        var j :| 0 <= j < |lines| && lines[j].start <= shmoffset + x < lines[j].end && lines[j].value == v;
        assert j < |before| ==> lines[j] == before[j];
      }
    }
  }
}
