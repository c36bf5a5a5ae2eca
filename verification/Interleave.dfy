/**
  verify_shm and interleave_next: checking that the pages of a shared segment lie on the nodes its policy
  promises, and what a clean interleave report says about the pages.
 */
module Interleave {
  import opened Words
  import opened Bitmasks

  const INT_MAX: nat := 0x7FFF_FFFF

  /** z lies strictly between x and y going up from x and around; when x == y that is everything but x. */
  predicate Between(x: nat, z: nat, y: nat) {
    if x < y then x < z < y else z > x || z < y
  }

  /** y is the member that follows x cyclically. */
  ghost predicate IsSuccessor(s: set<nat>, x: nat, y: nat) {
    y in s && forall z :: z in s ==> !Between(x, z, y)
  }

  /** A node number as the unsigned argument of interleave_next. */
  function AsUnsigned(node: int): nat {
    node % UINT_MODULUS
  }

  /** Where interleave_next starts looking: one past cur, but past the end it tests the number of nodes, which is
      never a member, and goes on from the number after that. */
  function Start(n: nat, cur: nat): nat
    requires n > 0
  {
    var next := (cur + 1) % UINT_MODULUS;
    if next < n then next else (next + 1) % UINT_MODULUS % n
  }

  /** r is the first member at or after start, cyclically. */
  ghost predicate IsFirstFrom(s: set<nat>, start: nat, r: nat) {
    r in s && forall z :: z in s ==> !(if start <= r then start <= z < r else z >= start || z < r)
  }

  /** interleave_next: it ends whenever the mask has a member. */
  method InterleaveNext(cur0: nat, mask: Bitmask) returns (cur: nat)
    requires mask.Valid() && mask.Bits() != {} && mask.size <= INT_MAX
    ensures IsFirstFrom(mask.Bits(), Start(mask.size, cur0), cur)
  {
    hide InWords;
    var n := mask.size;
    ghost var s, start := mask.Bits(), Start(n, cur0);
    ghost var goal :| goal in s;
    ghost var d := 0;
    cur := (cur0 + 1) % UINT_MODULUS;
    while !mask.IsBitSet(cur)
      invariant NoneIn(s, n, start, d)
      invariant if cur < n then cur == Around(n, start, d) else d == 0 && cur == (cur0 + 1) % UINT_MODULUS
      decreases n <= cur, 2 * n - d
    {
      if cur < n {
        Passed(s, n, start, d, goal);
        d := d + 1;
      }
      cur := (cur + 1) % UINT_MODULUS % n;
    }
    FoundFirst(s, n, start, d, cur);
  }

  function Around(n: nat, start: nat, d: nat): nat
    requires start < n && d <= n
  {
    if start + d < n then start + d else start + d - n
  }

  /** No member among the d numbers from start on. */
  ghost predicate NoneIn(s: set<nat>, n: nat, start: nat, d: nat) {
    start < n && d < n && (forall z :: z in s ==> z < n)
    && forall e :: 0 <= e < d ==> Around(n, start, e) !in s
  }

  lemma Passed(s: set<nat>, n: nat, start: nat, d: nat, goal: nat)
    requires NoneIn(s, n, start, d) && goal in s && Around(n, start, d) !in s && n <= INT_MAX
    ensures NoneIn(s, n, start, d + 1)
    ensures Around(n, start, d + 1) == (Around(n, start, d) + 1) % UINT_MODULUS % n
  {
    var e := if start <= goal then goal - start else goal + n - start;
    assert Around(n, start, e) == goal;
    WrapAround(n, Around(n, start, d));
  }

  lemma ModSelf(n: nat)
    requires n > 0
    ensures n % n == 0
  {
  }

  lemma ModSmall(a: nat, n: nat)
    requires a < n
    ensures a % n == a
  {
  }

  lemma WrapAround(n: nat, cur: nat)
    requires cur < n <= INT_MAX
    ensures (cur + 1) % UINT_MODULUS % n == if cur + 1 == n then 0 else cur + 1
  {
    ModSmall(cur + 1, UINT_MODULUS);
    if cur + 1 == n { ModSelf(n); } else { ModSmall(cur + 1, n); }
  }

  lemma FoundFirst(s: set<nat>, n: nat, start: nat, d: nat, r: nat)
    requires NoneIn(s, n, start, d) && r in s && r == Around(n, start, d)
    ensures IsFirstFrom(s, start, r)
  {
    forall z | z in s
      ensures !(if start <= r then start <= z < r else z >= start || z < r)
    {
      var e := if start <= z then z - start else z + n - start;
      assert Around(n, start, e) == z;
    }
  }

  /** The node interleave_next returns is the cyclic successor of a member except in one case: from the top possible
      node it passes over node 0. */
  lemma NextIsSuccessor(s: set<nat>, n: nat, cur: nat, r: nat)
    requires 0 < n <= INT_MAX && cur in s && (forall z :: z in s ==> z < n)
    requires IsFirstFrom(s, Start(n, cur), r)
    ensures IsSuccessor(s, cur, r) <==> !(cur == n - 1 && n > 1 && 0 in s)
  {
    StartAfter(n, cur);
    hide Start;
  }

  /** For example, with the nodes 0 and 1 the one after node 1 is node 1 again. */
  lemma NodeZeroPassedOver()
    ensures IsFirstFrom({0, 1}, Start(2, 1), 1) && !IsSuccessor({0, 1}, 1, 1) && IsSuccessor({0, 1}, 1, 0)
  {
    StartAfter(2, 1);
    hide Start;
  }

  lemma StartAfter(n: nat, cur: nat)
    requires cur < n <= INT_MAX
    ensures Start(n, cur) == if cur + 1 < n then cur + 1 else if n == 1 then 0 else 1
  {
    ModSmall(cur + 1, UINT_MODULUS);
    ModSmall(n + 1, UINT_MODULUS);
    AroundTheEnd(n);
  }

  /** The same for numbers that no node can have, -1 as an unsigned int among them. */
  lemma StartBeyond(n: nat, cur: nat)
    requires 0 < n <= INT_MAX && n <= cur < 0x1_0000_0000
    ensures Start(n, cur) == if cur >= 0xFFFF_FFFE then 0 else (cur + 2) % n
  {
    if cur < 0xFFFF_FFFE {
      ModSmall(cur + 1, UINT_MODULUS);
      ModSmall(cur + 2, UINT_MODULUS);
    } else {
      ModSmall(0, n);
    }
  }

  lemma AroundTheEnd(n: nat)
    requires n > 0
    ensures (n + 1) % n == if n == 1 then 0 else 1
  {
    if n > 1 { assert n + 1 == 1 * n + 1; }
  }

  // ----- the verifier -----

  datatype Policy = Default | Preferred | Bind | Interleave | Local | PreferredMany | WeightedInterleave

  /** What the kernel reports for a page: its policy, its policy's mask, and the node it lies on. */
  datatype Page = Page(policy: Policy, mask: seq<Word>, node: int)

  datatype Warning = WrongPolicy(page: nat) | MismatchedMask(page: nat) | OutOfRange(page: nat)
                   | ExpectedNode(page: nat, expected: int) | UnexpectedNode(page: nat)

  predicate IsMember(w: seq<Word>, size: nat, node: int) {
    0 <= node < size && InWords(w, node)
  }

  /** What a page must be, apart from the order of interleaved nodes. */
  ghost predicate PageOk(policy: Policy, expected: seq<Word>, size: nat, p: Page) {
    && p.policy == policy && p.mask == expected
    && (policy in {Policy.Interleave, Policy.PreferredMany, Policy.Preferred, Policy.Bind} ==>
         IsMember(expected, size, p.node))
  }

  /** The interleave order: the first page lies on the node asked for first, and each node is followed by the one
      interleave_next gives. */
  ghost predicate InOrder(expected: seq<Word>, size: nat, ilnode: int, pages: seq<Page>) {
    && size > 0
    && (pages != [] ==> pages[0].node == ilnode)
    && forall i :: 0 < i < |pages| ==>
         pages[i].node >= 0
         && IsFirstFrom(Members(expected, size), Start(size, AsUnsigned(pages[i - 1].node)), pages[i].node)
  }

  ghost predicate Clean(policy: Policy, expected: seq<Word>, size: nat, ilnode: int, pages: seq<Page>) {
    && (forall i :: 0 <= i < |pages| ==> PageOk(policy, expected, size, pages[i]))
    && (policy == Policy.Interleave ==> InOrder(expected, size, ilnode, pages))
  }

  lemma FirstFromUnique(s: set<nat>, start: nat, r: nat, q: nat)
    requires IsFirstFrom(s, start, r) && IsFirstFrom(s, start, q)
    ensures r == q
  {
  }

  /** What a warning says about a page when the interleave order asks for the node asked. A node is looked up in the
      mask that the kernel reports for the page. */
  ghost predicate Fault(x: Warning, policy: Policy, expected: seq<Word>, size: nat, asked: int, p: Page) {
    if x.WrongPolicy? then p.policy != policy
    else
      && p.policy == policy
      && match x
         case MismatchedMask(_) => p.mask != expected
         case OutOfRange(_) => policy.Interleave? && !IsMember(p.mask, size, p.node)
         case ExpectedNode(_, e) => policy.Interleave? && p.node != asked && e == asked
         case UnexpectedNode(_) =>
           (policy.PreferredMany? || policy.Preferred? || policy.Bind?) && !IsMember(p.mask, size, p.node)
         case WrongPolicy(_) => true
  }

  /** The report gets to page k: the pages before it have the policy and, interleaved, lie where the order asks for
      them, each node being followed by the next one in the page's own mask. */
  ghost predicate GetsTo(policy: Policy, size: nat, ilnode0: int, pages: seq<Page>, k: nat)
    requires size > 0 && k <= |pages|
  {
    forall j :: 0 <= j < k ==>
      pages[j].policy == policy && (policy.Interleave? ==> Wanted(size, ilnode0, pages, j, pages[j].node))
  }

  /** The node that interleave_next gives for page k. */
  ghost predicate Wanted(size: nat, ilnode0: int, pages: seq<Page>, k: nat, node: int)
    requires size > 0 && k <= |pages|
  {
    if k == 0 then node == ilnode0
    else
      node >= 0 && IsFirstFrom(Members(pages[k - 1].mask, size), Start(size, AsUnsigned(pages[k - 1].node)), node)
  }

  /** The warning belongs into the report. */
  ghost predicate Due(x: Warning, policy: Policy, w: seq<Word>, size: nat, ilnode0: int, pages: seq<Page>)
    requires size > 0
  {
    && x.page < |pages| && GetsTo(policy, size, ilnode0, pages, x.page)
    && exists asked :: (policy.Interleave? ==> Wanted(size, ilnode0, pages, x.page, asked))
                       && Fault(x, policy, w, size, asked, pages[x.page])
  }

  lemma WantedUnique(size: nat, ilnode0: int, pages: seq<Page>, k: nat, x: int, y: int)
    requires k <= |pages| && size > 0 && Wanted(size, ilnode0, pages, k, x) && Wanted(size, ilnode0, pages, k, y)
    ensures x == y
  {
    hide Members, Start;
    if k > 0 {
      FirstFromUnique(Members(pages[k - 1].mask, size), Start(size, AsUnsigned(pages[k - 1].node)), x, y);
    }
  }

  /** The warnings about page k. */
  lemma DueAt(policy: Policy, w: seq<Word>, size: nat, ilnode0: int, pages: seq<Page>, k: nat, ilnode: int)
    requires size > 0 && k < |pages| && GetsTo(policy, size, ilnode0, pages, k)
    requires policy.Interleave? ==> Wanted(size, ilnode0, pages, k, ilnode)
    ensures forall x: Warning :: x.page == k ==>
              (Due(x, policy, w, size, ilnode0, pages) <==> Fault(x, policy, w, size, ilnode, pages[k]))
  {
    hide Members, Start, Wanted;
    forall x: Warning | x.page == k
      ensures Due(x, policy, w, size, ilnode0, pages) <==> Fault(x, policy, w, size, ilnode, pages[k])
    {
      if policy.Interleave? && Due(x, policy, w, size, ilnode0, pages) {
        var asked :| Wanted(size, ilnode0, pages, k, asked) && Fault(x, policy, w, size, asked, pages[k]);
        WantedUnique(size, ilnode0, pages, k, asked, ilnode);
      }
    }
  }

  /** No warning is due behind a page that ends the report. */
  lemma NothingDueBehind(policy: Policy, w: seq<Word>, size: nat, ilnode0: int, pages: seq<Page>, k: nat, ilnode: int)
    requires size > 0 && k < |pages| && (policy.Interleave? ==> Wanted(size, ilnode0, pages, k, ilnode))
    requires pages[k].policy != policy || (policy.Interleave? && pages[k].node != ilnode)
    ensures forall x: Warning :: x.page > k ==> !Due(x, policy, w, size, ilnode0, pages)
  {
    hide Wanted, Fault;
    forall x: Warning | x.page > k && Due(x, policy, w, size, ilnode0, pages)
      ensures false
    {
      if pages[k].policy == policy { WantedUnique(size, ilnode0, pages, k, pages[k].node, ilnode); }
    }
  }

  /** One page, against the node the interleave order asks for; stop means the report ends here. */
  method CheckPage(k: nat, policy: Policy, nodes: Bitmask, nodes2: Bitmask, ilnode: int, p: Page)
    returns (ws: seq<Warning>, stop: bool)
    requires nodes.Valid() && nodes2.Valid() && nodes.size == nodes2.size && nodes2.maskp[..] == p.mask
    ensures ws == [] <==> PageOk(policy, nodes.maskp[..], nodes.size, p) && (policy.Interleave? ==> p.node == ilnode)
    ensures ws != [] ==> ws[0].page == k
    ensures forall x :: x in ws <==> x.page == k && Fault(x, policy, nodes.maskp[..], nodes.size, ilnode, p)
    ensures stop <==> p.policy != policy || (policy.Interleave? && p.node != ilnode)
    ensures stop ==> ws != []
    ensures forall i, j :: 0 <= i < j < |ws| ==> ws[i] != ws[j]
  {
    hide InWords;
    if p.policy != policy { return [WrongPolicy(k)], true; }
    ws, stop := [], false;
    if nodes2.maskp[..] != nodes.maskp[..] {
      ws := [MismatchedMask(k)];
    }
    match policy {
      case Interleave =>
        if p.node < 0 || !nodes2.IsBitSet(p.node) { ws := ws + [OutOfRange(k)]; }
        if p.node != ilnode { ws, stop := ws + [ExpectedNode(k, ilnode)], true; }
      case PreferredMany =>
        if p.node < 0 || !nodes2.IsBitSet(p.node) { ws := ws + [UnexpectedNode(k)]; }
      case Preferred =>
        if p.node < 0 || !nodes2.IsBitSet(p.node) { ws := ws + [UnexpectedNode(k)]; }
      case Bind =>
        if p.node < 0 || !nodes2.IsBitSet(p.node) { ws := ws + [UnexpectedNode(k)]; }
      case _ =>
    }
  }

  /** What the order asks of page k. */
  ghost predicate Asked(w: seq<Word>, size: nat, ilnode0: int, pages: seq<Page>, k: nat, node: int)
    requires k <= |pages| && size > 0
  {
    if k == 0 then node == ilnode0
    else node >= 0 && IsFirstFrom(Members(w, size), Start(size, AsUnsigned(pages[k - 1].node)), node)
  }

  lemma CleanNext(policy: Policy, w: seq<Word>, size: nat, ilnode0: int, pages: seq<Page>, k: nat)
    requires k < |pages| && size > 0
    ensures Clean(policy, w, size, ilnode0, pages[..k + 1]) <==>
              && Clean(policy, w, size, ilnode0, pages[..k])
              && PageOk(policy, w, size, pages[k])
              && (policy.Interleave? ==> Asked(w, size, ilnode0, pages, k, pages[k].node))
  {
    hide IsFirstFrom, PageOk, Start, Members;
    var a, b := pages[..k], pages[..k + 1];
    assert b[..k] == a && b[k] == pages[k];
    assert forall i :: 0 <= i < k ==> b[i] == a[i];
  }

  lemma AskedUnique(w: seq<Word>, size: nat, ilnode0: int, pages: seq<Page>, k: nat, x: int, y: int)
    requires k <= |pages| && size > 0 && Asked(w, size, ilnode0, pages, k, x) && Asked(w, size, ilnode0, pages, k, y)
    ensures x == y
  {
    hide Members, Start;
    if k > 0 { FirstFromUnique(Members(w, size), Start(size, AsUnsigned(pages[k - 1].node)), x, y); }
  }

  lemma {:induction false} CleanPrefix(policy: Policy, w: seq<Word>, size: nat, ilnode0: int, pages: seq<Page>, k: nat)
    requires k <= |pages| && size > 0 && Clean(policy, w, size, ilnode0, pages)
    ensures Clean(policy, w, size, ilnode0, pages[..k])
  {
    hide IsFirstFrom, PageOk, Start, Members;
  }

  /** All pages before page k are right, and page k is not. */
  ghost predicate FirstBad(policy: Policy, w: seq<Word>, size: nat, ilnode: int, pages: seq<Page>, k: nat) {
    k < |pages| && Clean(policy, w, size, ilnode, pages[..k]) && !Clean(policy, w, size, ilnode, pages[..k + 1])
  }

  /** The warnings come page by page, and none comes twice. */
  ghost predicate InPageOrder(warnings: seq<Warning>) {
    forall i, j :: 0 <= i < j < |warnings| ==> warnings[i].page <= warnings[j].page && warnings[i] != warnings[j]
  }

  lemma OneMorePage(warnings: seq<Warning>, ws: seq<Warning>, k: nat)
    requires InPageOrder(warnings) && forall x :: x in warnings ==> x.page < k
    requires (forall x :: x in ws ==> x.page == k) && forall i, j :: 0 <= i < j < |ws| ==> ws[i] != ws[j]
    ensures InPageOrder(warnings + ws)
  {
    var all := warnings + ws;
    forall i, j | 0 <= i < j < |all|
      ensures all[i].page <= all[j].page && all[i] != all[j]
    {
      assert all[i] in (if i < |warnings| then warnings else ws);
      assert all[j] in (if j < |warnings| then warnings else ws);
    }
  }

  /** verify_shm over the pages of the segment: nothing is reported exactly when every page is right, and otherwise
      the first report is about the first page that is not. The kernel never shows
      an empty mask for an interleaved page. */
  method VerifyShm(policy: Policy, nodes: Bitmask, ilnode0: int, pages: seq<Page>) returns (warnings: seq<Warning>)
    requires nodes.Valid() && nodes.size <= INT_MAX
    requires forall i :: 0 <= i < |pages| ==> |pages[i].mask| == nodes.maskp.Length
    requires forall i :: 0 <= i < |pages| && pages[i].policy.Interleave? ==> Members(pages[i].mask, nodes.size) != {}
    ensures warnings == [] <==> Clean(policy, nodes.maskp[..], nodes.size, ilnode0, pages)
    ensures warnings != [] ==> FirstBad(policy, nodes.maskp[..], nodes.size, ilnode0, pages, warnings[0].page)
    ensures forall x :: x in warnings <==> Due(x, policy, nodes.maskp[..], nodes.size, ilnode0, pages)
    ensures InPageOrder(warnings)
  {
    hide InWords, IsFirstFrom, Clean, PageOk, Asked, Start, Members, Due, Wanted, Fault, GetsTo, TailZero;
    hide Checked, Reported, ReportTo, InPageOrder, FirstBad, AsUnsigned;
    var ilnode := ilnode0;
    ghost var w, size := nodes.maskp[..], nodes.size;
    var nodes2 := new Bitmask(nodes.size);
    warnings := [];
    FirstPage(policy, w, size, ilnode0, pages);
    for k := 0 to |pages|
      invariant fresh(nodes2.maskp) && nodes2.maskp != nodes.maskp && nodes.maskp[..] == w && nodes2.Valid()
      invariant Checked(policy, w, size, ilnode0, pages, k, ilnode, warnings)
      invariant Reported(policy, w, size, ilnode0, pages, k, ilnode, warnings)
    {
      var p := pages[k];
      nodes2.Load(p.mask);
      var ws, stop := CheckPage(k, policy, nodes, nodes2, ilnode, p);
      CheckedNext(policy, w, size, ilnode0, pages, k, ilnode, warnings, ws);
      ReportedNext(policy, w, size, ilnode0, pages, k, ilnode, warnings, ws);
      warnings := warnings + ws;
      if stop {
        CheckedStop(policy, w, size, ilnode0, pages, k, warnings);
        ReportedStop(policy, w, size, ilnode0, pages, k, ilnode, warnings);
        return;
      }
      var next := 0;
      if policy.Interleave? { next := InterleaveNext(AsUnsigned(ilnode), nodes2); }
      CheckedGoesOn(policy, w, size, ilnode0, pages, k, ilnode, warnings, next);
      ReportedGoesOn(policy, w, size, ilnode0, pages, k, ilnode, warnings, next);
      if policy.Interleave? { ilnode := next; }
    }
    LastPage(policy, w, size, ilnode0, pages, ilnode, warnings);
  }

  /** The report on the first k pages as far as it is clean, and the node the order asks for next. */
  ghost predicate Checked(policy: Policy, w: seq<Word>, size: nat, ilnode0: int, pages: seq<Page>, k: nat, ilnode: int,
                          warnings: seq<Warning>) {
    && k <= |pages| && size > 0
    && (warnings == [] <==> Clean(policy, w, size, ilnode0, pages[..k]))
    && (warnings != [] ==> FirstBad(policy, w, size, ilnode0, pages, warnings[0].page))
    && (warnings == [] && policy.Interleave? ==> Asked(w, size, ilnode0, pages, k, ilnode))
  }

  /** The report on the first k pages, which goes on. */
  ghost predicate Reported(policy: Policy, w: seq<Word>, size: nat, ilnode0: int, pages: seq<Page>, k: nat, ilnode: int,
                           warnings: seq<Warning>) {
    && k <= |pages| && size > 0 && GetsTo(policy, size, ilnode0, pages, k)
    && (policy.Interleave? ==> Wanted(size, ilnode0, pages, k, ilnode))
    && ReportTo(policy, w, size, ilnode0, pages, k, warnings)
  }

  /** The warnings are those about the first k pages. */
  ghost predicate ReportTo(policy: Policy, w: seq<Word>, size: nat, ilnode0: int, pages: seq<Page>, k: nat,
                           warnings: seq<Warning>)
    requires size > 0
  {
    && InPageOrder(warnings)
    && forall x :: x in warnings <==> x.page < k && Due(x, policy, w, size, ilnode0, pages)
  }

  lemma CheckedNext(policy: Policy, w: seq<Word>, size: nat, ilnode0: int, pages: seq<Page>, k: nat, ilnode: int,
                    warnings: seq<Warning>, ws: seq<Warning>)
    requires Checked(policy, w, size, ilnode0, pages, k, ilnode, warnings) && k < |pages|
    requires ws == [] <==> PageOk(policy, w, size, pages[k]) && (policy.Interleave? ==> pages[k].node == ilnode)
    requires ws != [] ==> ws[0].page == k
    ensures warnings + ws == [] <==> Clean(policy, w, size, ilnode0, pages[..k + 1])
    ensures warnings + ws != [] ==> FirstBad(policy, w, size, ilnode0, pages, (warnings + ws)[0].page)
  {
    hide Clean, PageOk, Asked;
    CleanNext(policy, w, size, ilnode0, pages, k);
    if warnings == [] && policy.Interleave? && Asked(w, size, ilnode0, pages, k, pages[k].node) {
      AskedUnique(w, size, ilnode0, pages, k, pages[k].node, ilnode);
    }
  }

  lemma CheckedStop(policy: Policy, w: seq<Word>, size: nat, ilnode0: int, pages: seq<Page>, k: nat,
                    warnings: seq<Warning>)
    requires size > 0 && k < |pages| && warnings != [] && !Clean(policy, w, size, ilnode0, pages[..k + 1])
    ensures !Clean(policy, w, size, ilnode0, pages)
  {
    hide Clean;
    if Clean(policy, w, size, ilnode0, pages) { CleanPrefix(policy, w, size, ilnode0, pages, k + 1); }
  }

  lemma CheckedGoesOn(policy: Policy, w: seq<Word>, size: nat, ilnode0: int, pages: seq<Page>, k: nat, ilnode: int,
                      warnings: seq<Warning>, next: nat)
    requires size > 0 && k < |pages| && pages[k].policy == policy && (policy.Interleave? ==> pages[k].node == ilnode)
    requires warnings == [] <==> Clean(policy, w, size, ilnode0, pages[..k + 1])
    requires warnings != [] ==> FirstBad(policy, w, size, ilnode0, pages, warnings[0].page)
    requires policy.Interleave? ==> IsFirstFrom(Members(pages[k].mask, size), Start(size, AsUnsigned(ilnode)), next)
    ensures Checked(policy, w, size, ilnode0, pages, k + 1, if policy.Interleave? then next else ilnode, warnings)
  {
    hide Clean, PageOk, Asked, IsFirstFrom, Start, Members;
    if warnings == [] && policy.Interleave? {
      CleanNext(policy, w, size, ilnode0, pages, k);
      AskedNext(policy, w, size, ilnode0, pages, k, ilnode, next);
    }
  }

  lemma ReportedNext(policy: Policy, w: seq<Word>, size: nat, ilnode0: int, pages: seq<Page>, k: nat, ilnode: int,
                     warnings: seq<Warning>, ws: seq<Warning>)
    requires Reported(policy, w, size, ilnode0, pages, k, ilnode, warnings) && k < |pages|
    requires forall x :: x in ws <==> x.page == k && Fault(x, policy, w, size, ilnode, pages[k])
    requires forall i, j :: 0 <= i < j < |ws| ==> ws[i] != ws[j]
    ensures ReportTo(policy, w, size, ilnode0, pages, k + 1, warnings + ws)
    ensures GetsTo(policy, size, ilnode0, pages, k)
    ensures policy.Interleave? ==> Wanted(size, ilnode0, pages, k, ilnode)
  {
    hide GetsTo, Wanted, Due, Fault, InPageOrder;
    DueAt(policy, w, size, ilnode0, pages, k, ilnode);
    OneMorePage(warnings, ws, k);
  }

  lemma ReportedStop(policy: Policy, w: seq<Word>, size: nat, ilnode0: int, pages: seq<Page>, k: nat, ilnode: int,
                     warnings: seq<Warning>)
    requires size > 0 && k < |pages| && (policy.Interleave? ==> Wanted(size, ilnode0, pages, k, ilnode))
    requires pages[k].policy != policy || (policy.Interleave? && pages[k].node != ilnode)
    requires ReportTo(policy, w, size, ilnode0, pages, k + 1, warnings)
    ensures InPageOrder(warnings) && forall x :: x in warnings <==> Due(x, policy, w, size, ilnode0, pages)
  {
    hide Wanted, Due;
    NothingDueBehind(policy, w, size, ilnode0, pages, k, ilnode);
  }

  lemma ReportedGoesOn(policy: Policy, w: seq<Word>, size: nat, ilnode0: int, pages: seq<Page>, k: nat, ilnode: int,
                       warnings: seq<Warning>, next: nat)
    requires size > 0 && k < |pages| && GetsTo(policy, size, ilnode0, pages, k) && pages[k].policy == policy
    requires policy.Interleave? ==> Wanted(size, ilnode0, pages, k, ilnode) && pages[k].node == ilnode
    requires policy.Interleave? ==> IsFirstFrom(Members(pages[k].mask, size), Start(size, AsUnsigned(ilnode)), next)
    requires ReportTo(policy, w, size, ilnode0, pages, k + 1, warnings)
    ensures Reported(policy, w, size, ilnode0, pages, k + 1, if policy.Interleave? then next else ilnode, warnings)
  {
    hide GetsTo, Wanted, ReportTo;
    GetsOn(policy, size, ilnode0, pages, k, ilnode, next);
  }

  lemma LastPage(policy: Policy, w: seq<Word>, size: nat, ilnode0: int, pages: seq<Page>, ilnode: int,
                 warnings: seq<Warning>)
    requires Checked(policy, w, size, ilnode0, pages, |pages|, ilnode, warnings)
    requires Reported(policy, w, size, ilnode0, pages, |pages|, ilnode, warnings)
    ensures warnings == [] <==> Clean(policy, w, size, ilnode0, pages)
    ensures warnings != [] ==> FirstBad(policy, w, size, ilnode0, pages, warnings[0].page)
    ensures InPageOrder(warnings) && forall x :: x in warnings <==> Due(x, policy, w, size, ilnode0, pages)
  {
    hide Clean, Asked, Wanted, Fault;
    assert pages[..|pages|] == pages;
  }

  lemma FirstPage(policy: Policy, w: seq<Word>, size: nat, ilnode0: int, pages: seq<Page>)
    requires size > 0
    ensures Checked(policy, w, size, ilnode0, pages, 0, ilnode0, [])
    ensures Reported(policy, w, size, ilnode0, pages, 0, ilnode0, [])
  {
    hide Members, Fault, PageOk;
  }

  lemma GetsOn(policy: Policy, size: nat, ilnode0: int, pages: seq<Page>, k: nat, node: int, next: nat)
    requires size > 0 && k < |pages| && GetsTo(policy, size, ilnode0, pages, k) && pages[k].policy == policy
    requires policy.Interleave? ==> Wanted(size, ilnode0, pages, k, node) && pages[k].node == node
    requires policy.Interleave? ==>
               IsFirstFrom(Members(pages[k].mask, size), Start(size, AsUnsigned(node)), next)
    ensures GetsTo(policy, size, ilnode0, pages, k + 1)
    ensures policy.Interleave? ==> Wanted(size, ilnode0, pages, k + 1, next)
  {
    hide IsFirstFrom, Start, Members;
  }

  lemma AskedNext(policy: Policy, w: seq<Word>, size: nat, ilnode0: int, pages: seq<Page>, k: nat, node: int, next: nat)
    requires k < |pages| && size > 0 && pages[k].node == node && PageOk(policy, w, size, pages[k])
    requires IsFirstFrom(Members(pages[k].mask, size), Start(size, AsUnsigned(node)), next)
    ensures Asked(w, size, ilnode0, pages, k + 1, next)
  {
    hide IsFirstFrom, Start, Members;
  }

  // ----- what a report says -----

  /** Without warnings, exactly: under every policy all pages have the policy and the mask; under the policies that
      name the nodes of a page, and only under those, they also lie on nodes of the mask. */
  lemma CleanMeans(policy: Policy, w: seq<Word>, size: nat, ilnode: int, pages: seq<Page>)
    ensures policy == Policy.Bind || policy == Policy.Preferred || policy == Policy.PreferredMany ==>
              (Clean(policy, w, size, ilnode, pages) <==> forall p :: p in pages ==>
                p.policy == policy && p.mask == w && p.node >= 0 && p.node in Members(w, size))
    ensures policy == Policy.Default || policy == Policy.Local || policy == Policy.WeightedInterleave ==>
              (Clean(policy, w, size, ilnode, pages) <==> forall p :: p in pages ==> p.policy == policy && p.mask == w)
    ensures policy == Policy.Interleave && Clean(policy, w, size, ilnode, pages) ==> forall p :: p in pages ==>
              p.policy == policy && p.mask == w && p.node >= 0 && p.node in Members(w, size)
  {
    hide InWords, InOrder;
    assert forall i :: 0 <= i < |pages| ==> pages[i] in pages;
  }

  /** Which warnings a page gets when the segment is not interleaved. The report ends at the first page with another
      policy; up to there every wrong mask is reported, and under the policies that name the nodes of a page every page
      that is not on a node of its own mask. */
  lemma PlainWarnings(policy: Policy, w: seq<Word>, size: nat, ilnode: int, pages: seq<Page>, k: nat, e: int)
    requires size > 0 && k < |pages| && policy != Policy.Interleave
    ensures var p, here := pages[k], forall j :: 0 <= j < k ==> pages[j].policy == policy;
            && (Due(WrongPolicy(k), policy, w, size, ilnode, pages) <==> here && p.policy != policy)
            && (Due(MismatchedMask(k), policy, w, size, ilnode, pages) <==>
                  here && p.policy == policy && p.mask != w)
            && (Due(UnexpectedNode(k), policy, w, size, ilnode, pages) <==>
                  && here && p.policy == policy
                  && (policy == Policy.Bind || policy == Policy.Preferred || policy == Policy.PreferredMany)
                  && !(p.node >= 0 && p.node in Members(p.mask, size)))
            && !Due(OutOfRange(k), policy, w, size, ilnode, pages)
            && !Due(ExpectedNode(k, e), policy, w, size, ilnode, pages)
  {
    hide InWords, Wanted, Due;
    if GetsTo(policy, size, ilnode, pages, k) {
      DueAt(policy, w, size, ilnode, pages, k, ilnode);
    } else {
      NotThere(policy, w, size, ilnode, pages, k);
    }
  }

  lemma NotThere(policy: Policy, w: seq<Word>, size: nat, ilnode: int, pages: seq<Page>, k: nat)
    requires size > 0 && k < |pages| && !GetsTo(policy, size, ilnode, pages, k)
    ensures forall x: Warning :: x.page == k ==> !Due(x, policy, w, size, ilnode, pages)
  {
  }

  /** Which warnings a page gets when the segment is interleaved and the order asks for a node there: the report ends at
      the first page with another policy or on another node. */
  lemma InterleaveWarnings(w: seq<Word>, size: nat, ilnode: int, pages: seq<Page>, k: nat, asked: int, e: int)
    requires size > 0 && k < |pages| && Wanted(size, ilnode, pages, k, asked)
    ensures var p, policy := pages[k], Policy.Interleave;
            var here := forall j :: 0 <= j < k ==>
              pages[j].policy == policy && Wanted(size, ilnode, pages, j, pages[j].node);
            && (Due(WrongPolicy(k), policy, w, size, ilnode, pages) <==> here && p.policy != policy)
            && (Due(MismatchedMask(k), policy, w, size, ilnode, pages) <==>
                  here && p.policy == policy && p.mask != w)
            && (Due(OutOfRange(k), policy, w, size, ilnode, pages) <==>
                  here && p.policy == policy && !(p.node >= 0 && p.node in Members(p.mask, size)))
            && (Due(ExpectedNode(k, e), policy, w, size, ilnode, pages) <==>
                  here && p.policy == policy && p.node != asked && e == asked)
            && !Due(UnexpectedNode(k), policy, w, size, ilnode, pages)
  {
    hide InWords, Wanted, Due;
    if GetsTo(Policy.Interleave, size, ilnode, pages, k) {
      DueAt(Policy.Interleave, w, size, ilnode, pages, k, asked);
    } else {
      NotThere(Policy.Interleave, w, size, ilnode, pages, k);
    }
  }

  /** The order starts with the given node and goes on with interleave_next in the mask of the page before. */
  lemma WantedMeans(size: nat, ilnode: int, pages: seq<Page>, k: nat, node: int)
    requires 0 < size <= INT_MAX && 0 < k <= |pages|
    requires 0 <= pages[k - 1].node && pages[k - 1].node in Members(pages[k - 1].mask, size)
    ensures Wanted(size, ilnode, pages, 0, node) <==> node == ilnode
    ensures Wanted(size, ilnode, pages, k, node)
            && !(pages[k - 1].node == size - 1 && size > 1 && 0 in Members(pages[k - 1].mask, size)) ==>
              node >= 0 && IsSuccessor(Members(pages[k - 1].mask, size), pages[k - 1].node, node)
  {
    hide InWords, IsFirstFrom, IsSuccessor, Start;
    var x: nat := pages[k - 1].node;
    if Wanted(size, ilnode, pages, k, node) { NextIsSuccessor(Members(pages[k - 1].mask, size), size, x, node); }
  }

  // ----- what a clean report says -----

  /** Nodes that follow one another cyclically through the members. */
  ghost predicate IsWalk(s: set<nat>, walk: seq<nat>) {
    && (forall i :: 0 <= i < |walk| ==> walk[i] in s)
    && forall i :: 0 < i < |walk| ==> IsSuccessor(s, walk[i - 1], walk[i])
  }

  function Nodes(pages: seq<Page>): (r: seq<nat>)
    requires forall i :: 0 <= i < |pages| ==> pages[i].node >= 0
    ensures |r| == |pages| && forall i :: 0 <= i < |pages| ==> r[i] == pages[i].node
  {
    if pages == [] then [] else Nodes(pages[..|pages| - 1]) + [pages[|pages| - 1].node]
  }

  /** For a mask without the top possible node, or with it but without node 0, no complaint means that the pages
      lie on the cyclic successor walk of the mask that starts at the node of the first page. */
  lemma CleanIsWalk(expected: seq<Word>, size: nat, ilnode: int, pages: seq<Page>)
    requires 0 < size <= INT_MAX && Clean(Policy.Interleave, expected, size, ilnode, pages)
    requires size - 1 !in Members(expected, size) || 0 !in Members(expected, size) || size == 1
    ensures forall i :: 0 <= i < |pages| ==> pages[i].node >= 0
    ensures IsWalk(Members(expected, size), Nodes(pages)) && (pages != [] ==> Nodes(pages)[0] == ilnode)
  {
    hide InWords, IsFirstFrom, IsSuccessor, Start, Nodes;
    forall i | 0 <= i < |pages|
      ensures pages[i].node >= 0 && pages[i].node in Members(expected, size)
    {
      assert PageOk(Policy.Interleave, expected, size, pages[i]);
    }
    forall i | 0 < i < |pages|
      ensures IsSuccessor(Members(expected, size), pages[i - 1].node, pages[i].node)
    {
      NextIsSuccessor(Members(expected, size), size, pages[i - 1].node, pages[i].node);
    }
  }

  function Count(walk: seq<nat>, c: nat): nat {
    if walk == [] then 0 else Count(walk[..|walk| - 1], c) + if walk[|walk| - 1] == c then 1 else 0
  }

  /** c lies on the way from x up and around to y, x included and y not; nothing lies between x and x. */
  predicate OnTheWay(x: nat, y: nat, c: nat) {
    if x <= y then x <= c < y else c >= x || c < y
  }

  /** After a walk from x, with y the next member: every member was met once in each full round, and once more if
      it lies on the way from x to y. */
  lemma {:induction false} RoundsOfWalk(s: set<nat>, walk: seq<nat>, y: nat) returns (rounds: nat)
    requires walk != [] && IsWalk(s, walk) && IsSuccessor(s, walk[|walk| - 1], y)
    ensures forall c :: c in s ==> Count(walk, c) == rounds + if OnTheWay(walk[0], y, c) then 1 else 0
  {
    var x, last, rest := walk[0], walk[|walk| - 1], walk[..|walk| - 1];
    var before := 0;
    if rest != [] {
      before := RoundsOfWalk(s, rest, last);
    }
    assert forall c :: c in s ==> Count(rest, c) == before + if OnTheWay(x, last, c) then 1 else 0;
    rounds := if x == y then before + 1 else before;
    forall c | c in s
      ensures Count(walk, c) == rounds + if OnTheWay(x, y, c) then 1 else 0
    {
      assert !Between(last, c, y) && !Between(last, x, y);
    }
  }

  lemma SuccessorExists(s: set<nat>, x: nat) returns (y: nat)
    requires x in s
    ensures IsSuccessor(s, x, y)
  {
    var above := set z | z in s && z > x;
    y := Least(if above == {} then s else above);
    forall z | z in s
      ensures !Between(x, z, y)
    {
      assert z in above <==> z > x;
    }
  }

  lemma {:induction false} Least(s: set<nat>) returns (y: nat)
    requires s != {}
    ensures y in s && forall z :: z in s ==> y <= z
    decreases |s|
  {
    var x :| x in s;
    var rest := s - {x};
    assert forall z :: z in s ==> z == x || z in rest;
    if rest == {} {
      y := x;
    } else {
      y := Least(rest);
      if x < y { y := x; }
    }
  }

  /** In every window of the pages the numbers of pages on two nodes of the mask differ by at most one. */
  lemma WindowsBalanced(s: set<nat>, walk: seq<nat>, i: nat, j: nat, a: nat, b: nat)
    requires IsWalk(s, walk) && i <= j <= |walk| && a in s && b in s
    ensures -1 <= Count(walk[i..j], a) - Count(walk[i..j], b) <= 1
  {
    var window := walk[i..j];
    if window != [] {
      var y := SuccessorExists(s, window[|window| - 1]);
      var rounds := RoundsOfWalk(s, window, y);
    }
  }

  /** A clean interleave report means balance: in every window of the segment's pages, two nodes of the mask carry
      equally many pages or one more. */
  lemma CleanMeansBalanced(expected: seq<Word>, size: nat, ilnode: int, pages: seq<Page>, i: nat, j: nat,
                           a: nat, b: nat)
    requires 0 < size <= INT_MAX && Clean(Policy.Interleave, expected, size, ilnode, pages)
    requires size - 1 !in Members(expected, size) || 0 !in Members(expected, size) || size == 1
    requires i <= j <= |pages| && a in Members(expected, size) && b in Members(expected, size)
    ensures forall k :: 0 <= k < |pages| ==> pages[k].node >= 0
    ensures -1 <= Count(Nodes(pages)[i..j], a) - Count(Nodes(pages)[i..j], b) <= 1
  {
    hide Clean, InWords, IsWalk, Count, Nodes, Members;
    CleanIsWalk(expected, size, ilnode, pages);
    WindowsBalanced(Members(expected, size), Nodes(pages), i, j, a, b);
  }
}
