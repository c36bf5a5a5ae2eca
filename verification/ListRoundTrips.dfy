/**
  Reading back what the range printers print.
 */
module ListRoundTrips {
  import opened Words
  import opened CText
  import opened Bitmasks
  import opened NumberLists
  import opened Sets
  import opened Wrappers
  import opened ListPrinters

  /** Text that may follow an item: nothing, or a comma and more. */
  predicate ItemEnds(rest: Text) {
    rest == [] || rest[0] == ','
  }

  lemma NumberFollowedBy(t: Text, p: nat, q: nat, n: nat, rest: Text)
    requires p <= q <= |t| && (forall j :: p <= j < q ==> t[j] == ' ')
    requires t[q..] == Decimal(n) + rest && (rest == [] || DigitValue(rest[0]) == 36)
    ensures Strtoul(t, p, 0) == Scan(Saturated(n), q + |Decimal(n)|)
    ensures t[q + |Decimal(n)|..] == rest
  {
    hide Decimal, Strtoul;
    var e := q + |Decimal(n)|;
    assert t[q..e] == t[q..][..|Decimal(n)|];
    assert t[e..] == t[q..][|Decimal(n)|..];
    assert rest != [] ==> t[e] == t[e..][0];
    StrtoulDecimal(t, p, q, n);
  }

  predicate Blanks(b: Text) {
    forall j :: 0 <= j < |b| ==> b[j] == ' '
  }

  /** A printed item does not look like a word. */
  lemma StartsWithDigit(t: Text, pos: nat, blank: Text, n: nat, more: Text)
    requires pos <= |t| && Blanks(blank) && t[pos..] == blank + (Decimal(n) + more)
    ensures t[pos..] != "all" && !IsAlpha(At(t, pos))
  {
    var c := t[pos..][0];
    assert c == if blank == [] then Decimal(n)[0] else blank[0];
    assert c == ' ' || '0' <= c <= '9';
  }

  /** Reading a single number or a range as printed. */
  lemma {:induction false} ReadSingle(env: Env, t: Text, pos: nat, blank: Text, a: nat, rest: Text, acc: set<nat>)
    requires pos <= |t| && Blanks(blank) && ItemEnds(rest) && !env.relative
    requires t[pos..] == blank + (Decimal(a) + rest) && a < ULONG_MODULUS && Accepts(env, a)
    ensures |rest| <= |t| && t[|t| - |rest|..] == rest
    ensures ParseFrom(env, t, pos, acc) == ParseMore(env, t, |t| - |rest|, acc + {a})
  {
    hide Decimal, Strtoul, ParseMore;
    var q := pos + |blank|;
    StartsWithDigit(t, pos, blank, a, rest);
    assert t[q..] == t[pos..][|blank|..];
    forall j | pos <= j < q ensures t[j] == ' ' { assert t[j] == t[pos..][j - pos]; }
    NumberFollowedBy(t, pos, q, a, rest);
  }

  lemma {:induction false} ReadSpan(env: Env, t: Text, pos: nat, blank: Text, a: nat, b: nat, rest: Text, acc: set<nat>)
    requires pos <= |t| && Blanks(blank) && ItemEnds(rest) && !env.relative
    requires t[pos..] == blank + (Decimal(a) + (['-'] + (Decimal(b) + rest)))
    requires a < ULONG_MODULUS && b < ULONG_MODULUS && Accepts(env, a) && Accepts(env, b)
    ensures |rest| <= |t| && t[|t| - |rest|..] == rest
    ensures ParseFrom(env, t, pos, acc) == ParseMore(env, t, |t| - |rest|, acc + SpanSet(env, a, b))
  {
    hide Decimal, Strtoul, ParseMore;
    var q := pos + |blank|;
    var tail := ['-'] + (Decimal(b) + rest);
    StartsWithDigit(t, pos, blank, a, tail);
    assert t[q..] == t[pos..][|blank|..];
    forall j | pos <= j < q ensures t[j] == ' ' { assert t[j] == t[pos..][j - pos]; }
    NumberFollowedBy(t, pos, q, a, tail);
    var e := q + |Decimal(a)|;
    assert t[e] == t[e..][0] == '-';
    assert t[e + 1..] == t[e..][1..];
    NumberFollowedBy(t, e + 1, e + 1, b, rest);
  }

  function From(s: set<nat>, i: nat): set<nat> {
    set k | k in s && k >= i
  }

  /** A whole range of allowed numbers. */
  lemma ReadRange(env: Env, t: Text, pos: nat, blank: Text, a: nat, last: nat, rest: Text, acc: set<nat>)
    requires pos <= |t| && Blanks(blank) && ItemEnds(rest) && !env.relative
    requires t[pos..] == blank + (RangeText(a, last) + rest)
    requires a <= last < ULONG_MODULUS && Accepts(env, a) && Accepts(env, last)
    requires forall k: nat :: a <= k <= last ==> k in env.allowed
    ensures |rest| <= |t| && t[|t| - |rest|..] == rest
    ensures ParseFrom(env, t, pos, acc) == ParseMore(env, t, |t| - |rest|, acc + From(Below(last + 1), a))
  {
    hide Decimal, ParseFrom, ParseMore, Below;
    if a == last {
      assert RangeText(a, last) + rest == Decimal(a) + rest;
      ReadSingle(env, t, pos, blank, a, rest, acc);
      assert From(Below(last + 1), a) == {a};
    } else {
      assert RangeText(a, last) + rest == Decimal(a) + (['-'] + (Decimal(last) + rest));
      ReadSpan(env, t, pos, blank, a, last, rest, acc);
      assert From(Below(last + 1), a) == SpanSet(env, a, last);
    }
  }

  // ----- print_node_cpus -----

  lemma CpuRangesShape(s: set<nat>, n: nat, i: nat)
    requires i <= n
    ensures var a := NextMember(s, n, i);
            if a == n then CpuRanges(s, n, i, false) == [] && CpuRanges(s, n, i, true) == [] else
            var e := RunEnd(s, n, a);
            && a < e
            && CpuRanges(s, n, i, false) == [' '] + (RangeText(a, e - 1) + CpuRanges(s, n, e, true))
            && CpuRanges(s, n, i, true) == [','] + CpuRanges(s, n, i, false)
  {
    hide RangeText;
  }

  lemma FromSplit(s: set<nat>, n: nat, i: nat)
    requires i <= n && forall k :: k in s ==> k < n
    ensures var a := NextMember(s, n, i);
            if a == n then From(s, i) == {} else
            var e := RunEnd(s, n, a); a < e && From(s, i) == From(Below(e), a) + From(s, e)
  {
    hide Below;
    var a := NextMember(s, n, i);
    if a == n {
      assert From(s, i) == {};
    } else {
      var e := RunEnd(s, n, a);
      assert a in s;
      forall k: nat
        ensures k in From(s, i) <==> k in From(Below(e), a) + From(s, e)
      {
        assert i <= k < a ==> k !in s;
        assert a <= k < e ==> k in s;
      }
    }
  }

  /** The environment of numa_parse_cpustring_all: every configured cpu is allowed. */
  ghost predicate AllCpus(env: Env) {
    env.cpus && !env.relative && env.allowed == Below(env.conf) && env.conf <= env.size <= 0x7FFF_FFFF
  }

  lemma {:induction false} ReadCpuRanges(env: Env, s: set<nat>, n: nat, i: nat, t: Text, pos: nat, acc: set<nat>)
    requires AllCpus(env) && s <= Below(env.conf) && env.conf <= n && i <= n && (forall k :: k in s ==> k < n)
    requires NextMember(s, n, i) < n && pos <= |t| && t[pos..] == CpuRanges(s, n, i, false)
    ensures ParseFrom(env, t, pos, acc) == Some(acc + From(s, i))
    decreases n - i
  {
    hide CpuRanges, RangeText, ParseFrom, Below, From;
    var a := NextMember(s, n, i);
    var e := RunEnd(s, n, a);
    CpuRangesShape(s, n, i);
    CpuRangesShape(s, n, e);
    FromSplit(s, n, i);
    FromSplit(s, n, e);
    assert a in s && e - 1 in s && forall k :: a <= k <= e - 1 ==> k in env.allowed;
    var rest := CpuRanges(s, n, e, true);
    ReadRange(env, t, pos, [' '], a, e - 1, rest, acc);
    var p := |t| - |rest|;
    if rest != [] {
      assert t[p] == t[p..][0];
      assert t[p + 1..] == t[p..][1..] == CpuRanges(s, n, e, false);
      ReadCpuRanges(env, s, n, e, t, p + 1, acc + From(Below(e), a));
      assert acc + From(Below(e), a) + From(s, e) == acc + From(s, i);
    } else {
      assert acc + From(Below(e), a) == acc + From(s, i);
    }
  }

  /** For every mask of configured cpus, the ranges that print_node_cpus prints parse back to the mask. */
  lemma CpuRangesParseBack(env: Env, s: set<nat>, n: nat)
    requires AllCpus(env) && s <= Below(env.conf) && env.conf <= n
    ensures Parse(env, CpuRanges(s, n, 0, false)) == Some(s)
  {
    hide CpuRanges, ParseFrom;
    assert forall k :: k in s ==> k < n;
    var t := CpuRanges(s, n, 0, false);
    CpuRangesShape(s, n, 0);
    FromSplit(s, n, 0);
    assert From(s, 0) == s;
    if NextMember(s, n, 0) < n {
      assert t[0] == ' ' && t[0..] == t;
      assert env.(relative := false) == env;
      ReadCpuRanges(env, s, n, 0, t, 0, {});
      assert {} + From(s, 0) == s;
    }
  }

  // ----- hardware() -----

  /** The environment of numa_parse_nodestring_all: every node up to the highest is allowed. */
  ghost predicate AllNodes(env: Env, n: nat) {
    !env.cpus && !env.relative && env.allowed == Below(n) && n <= env.size <= 0x7FFF_FFFF
  }

  /** A range whose end was left out is refused. */
  lemma {:induction false} ReadCutOff(env: Env, t: Text, pos: nat, a: nat, acc: set<nat>)
    requires pos <= |t| && !env.relative && t[pos..] == Decimal(a) + ['-'] && a < ULONG_MODULUS
    ensures ParseFrom(env, t, pos, acc) == None
  {
    hide Decimal, ParseMore, Accepts;
    assert t[pos..] == [] + (Decimal(a) + ['-']);
    StartsWithDigit(t, pos, [], a, ['-']);
    NumberFollowedBy(t, pos, pos, a, ['-']);
    var e := pos + |Decimal(a)|;
    assert t[e] == t[e..][0] == '-';
    assert |t| == e + 1;
    NothingToRead(t);
  }

  lemma NothingToRead(t: Text)
    ensures Strtoul(t, |t|, 0) == Scan(0, |t|)
  {
  }

  lemma NodeRangesShape(s: set<nat>, n: nat, i: nat)
    requires i <= n && NextMember(s, n, i) < n
    ensures var a := NextMember(s, n, i);
            var e := RunEnd(s, n, a);
            var m := NextMember(s, n, e);
            a < e && NodeRanges(s, n, i) ==
              NodeRange(a, e, m < n || e == n) + if m < n then [','] + NodeRanges(s, n, e) else []
  {
    hide NodeRange;
  }

  /** One range of nodes, with what follows it. */
  lemma ReadNodeRange(env: Env, t: Text, pos: nat, a: nat, e: nat, rest: Text, acc: set<nat>)
    requires pos <= |t| && ItemEnds(rest) && !env.relative && !env.cpus
    requires a < e <= ULONG_MODULUS && t[pos..] == NodeRange(a, e, true) + rest
    requires forall k: nat :: a <= k < e ==> k in env.allowed
    ensures |rest| <= |t| && t[|t| - |rest|..] == rest
    ensures ParseFrom(env, t, pos, acc) == ParseMore(env, t, |t| - |rest|, acc + From(Below(e), a))
  {
    hide Decimal, ParseFrom, ParseMore, Below, From;
    assert t[pos..] == [] + (RangeText(a, e - 1) + rest);
    ReadRange(env, t, pos, [], a, e - 1, rest, acc);
  }

  /** The list is read up to its end, or refused there: top is the highest node in the set. */
  lemma {:induction false} ReadNodeRanges(env: Env, s: set<nat>, n: nat, i: nat, t: Text, pos: nat, acc: set<nat>,
                                         top: nat)
    requires AllNodes(env, n) && i <= n && (forall k :: k in s ==> k < n && k <= top)
    requires top in s && i <= top && pos <= |t| && t[pos..] == NodeRanges(s, n, i)
    requires i == 0 || i !in s
    ensures ParseFrom(env, t, pos, acc) ==
              if top == n - 1 || top == 0 || top - 1 !in s then Some(acc + From(s, i)) else None
    decreases n - i
  {
    hide NodeRanges, NodeRange, ParseFrom, Below, From;
    var a := NextMember(s, n, i);
    assert a <= top;
    var e := RunEnd(s, n, a);
    var m := NextMember(s, n, e);
    NodeRangesShape(s, n, i);
    FromSplit(s, n, i);
    FromSplit(s, n, e);
    assert forall k :: a <= k < e ==> k in env.allowed;
    if m < n {
      assert m <= top;
      var rest := [','] + NodeRanges(s, n, e);
      ReadNodeRange(env, t, pos, a, e, rest, acc);
      var p := |t| - |rest|;
      assert t[p] == t[p..][0];
      assert t[p + 1..] == t[p..][1..] == NodeRanges(s, n, e);
      ReadNodeRanges(env, s, n, e, t, p + 1, acc + From(Below(e), a), top);
      assert acc + From(Below(e), a) + From(s, e) == acc + From(s, i);
    } else {
      assert top == e - 1 by {
        assert top < e || top >= e;
        assert e - 1 in s;
      }
      if top == n - 1 || top == 0 || top - 1 !in s {
        LastRange(a, e, e == n);
        ReadNodeRange(env, t, pos, a, e, [], acc);
        assert acc + From(Below(e), a) == acc + From(s, i);
      } else {
        assert a == i || a - 1 !in s;
        assert a < top;
        CutOff(a, e);
        ReadCutOff(env, t, pos, a, acc);
      }
    }
  }

  lemma LastRange(a: nat, e: nat, printEnd: bool)
    requires a < e && (printEnd || e == a + 1)
    ensures NodeRange(a, e, printEnd) + [] == NodeRange(a, e, true) + []
  {
  }

  lemma CutOff(a: nat, e: nat)
    requires a + 1 < e
    ensures NodeRange(a, e, false) + [] == Decimal(a) + ['-']
  {
  }

  /** For any maximum, the node list parses back to the set of nodes exactly when the highest node of the set is the
      maximum n - 1 or is not the end of a longer range; otherwise the end of that range is missing and the list is
      refused. */
  lemma NodeRangesParseBack(env: Env, s: set<nat>, n: nat, top: nat)
    requires AllNodes(env, n) && top in s && forall k :: k in s ==> k < n && k <= top
    ensures Parse(env, NodeRanges(s, n, 0)) ==
              if top == n - 1 || top == 0 || top - 1 !in s then Some(s) else None
  {
    hide NodeRanges, ParseFrom, From;
    var t := NodeRanges(s, n, 0);
    StartsPlain(s, n);
    ReadNodeRanges(env, s, n, 0, t, 0, {}, top);
    FromStart(s);
    Plain(env, t);
  }

  /** A list with neither "!" nor "+" in front. */
  lemma Plain(env: Env, t: Text)
    requires t != [] && '0' <= t[0] <= '9' && !env.relative
    ensures Parse(env, t) == ParseFrom(env, t, 0, {})
  {
    hide ParseFrom;
    assert env.(relative := false) == env;
  }

  lemma FromStart(s: set<nat>)
    ensures {} + From(s, 0) == s
  {
  }

  lemma StartsPlain(s: set<nat>, n: nat)
    requires NextMember(s, n, 0) < n
    ensures var t := NodeRanges(s, n, 0); t != [] && t[0..] == t && '0' <= t[0] <= '9'
  {
    hide NodeRanges;
    NodeRangesShape(s, n, 0);
    var a := NextMember(s, n, 0);
    var e := RunEnd(s, n, a);
    assert NodeRange(a, e, NextMember(s, n, e) < n || e == n)[0] == Decimal(a)[0];
  }

  /** With the highest node as the last one printed, the end of the last range is always there. */
  lemma HardwareParsesBack(env: Env, s: set<nat>, n: nat)
    requires AllNodes(env, n) && s <= Below(n) && (s != {} ==> n > 0 && n - 1 in s)
    ensures Parse(env, NodeRanges(s, n, 0)) == Some(s)
  {
    hide NodeRanges;
    if s != {} {
      NodeRangesParseBack(env, s, n, n - 1);
    } else {
      NoRanges(n);
    }
  }

  lemma NoRanges(n: nat)
    ensures NodeRanges({}, n, 0) == []
  {
  }

  /** set_configured_nodes: the nodes found in sysfs and the highest of them; without the directory there is no
      node and the highest is 0, with an empty one it stays at -1. */
  method SetConfiguredNodes(found: Option<seq<nat>>, nodes: Bitmask) returns (maxnode: int)
    requires nodes.Valid() && nodes.Bits() == {}
    modifies nodes.maskp
    ensures nodes.Bits() == Found(found, nodes.size)
    ensures found.None? ==> maxnode == 0
    ensures found.Some? ==> (if found.value == [] then maxnode == -1 else maxnode in found.value)
    ensures found.Some? ==> forall x :: x in found.value ==> x <= maxnode
  {
    hide InWords, Members;
    if found.None? { return 0; }
    var all := found.value;
    maxnode := -1;
    for i := 0 to |all|
      invariant nodes.Bits() == Found(Some(all[..i]), nodes.size)
      invariant if i == 0 then maxnode == -1 else maxnode in all[..i]
      invariant forall x :: x in all[..i] ==> x <= maxnode
    {
      assert all[..i + 1] == all[..i] + [all[i]];
      nodes.SetBit(all[i], true);
      if maxnode < all[i] { maxnode := all[i]; }
    }
    assert all[..|all|] == all;
  }

  /** numa_num_configured_nodes, and the count in hardware(): the number of nodes. */
  method CountNodes(nodes: Bitmask, maxnode: int) returns (count: nat)
    requires nodes.Valid() && maxnode >= -1 && forall x :: x in nodes.Bits() ==> x <= maxnode
    ensures count == |nodes.Bits()|
  {
    hide InWords, Members;
    count := 0;
    for i := 0 to maxnode + 1
      invariant count == Rank(nodes.Bits(), i)
    {
      if nodes.IsBitSet(i) { count := count + 1; }
    }
    RankIsCardinality(nodes.Bits(), maxnode + 1);
  }

  ghost function Found(found: Option<seq<nat>>, size: nat): set<nat> {
    if found.None? then {} else set x | x in found.value && x < size
  }

  lemma FoundIs(found: Option<seq<nat>>, size: nat, n: nat)
    requires found.Some? ==> forall x :: x in found.value ==> x < size && x < n
    ensures Found(found, size) == if found.None? then {} else set x | x in found.value
    ensures Found(found, size) <= Below(n)
    ensures Found(found, size) == {} <==> found.None? || found.value == []
    ensures forall x :: x in Found(found, size) <==> found.Some? && x in found.value
  {
    if found.Some? && found.value != [] {
      assert found.value[0] in found.value;
      assert found.value[0] in Found(found, size);
    }
  }

  /** From the nodes in sysfs to the list that hardware() shows: as long as the node mask has a bit for each of them,
      the list parses back to exactly these nodes. */
  method ShowNodes(found: Option<seq<nat>>, size: nat) returns (out: Text, maxnode: int)
    requires size >= 1 && (found.Some? ==> forall x :: x in found.value ==> x < size)
    ensures maxnode >= -1
    ensures forall env :: AllNodes(env, maxnode + 1) ==>
              Parse(env, out) == Some(if found.None? then {} else set x | x in found.value)
  {
    hide InWords, Members, NodeRanges, Parse, AllNodes, Found, TailZero;
    var nodes := new Bitmask(size);
    maxnode := SetConfiguredNodes(found, nodes);
    out := PrintNodes(nodes, maxnode);
    ghost var s, n: nat := nodes.Bits(), maxnode + 1;
    FoundIs(found, size, n);
    forall env | AllNodes(env, n)
      ensures Parse(env, out) == Some(s)
    {
      HardwareParsesBack(env, s, n);
    }
  }
}
