/**
  The language of node and cpu lists, such as "3", "!1-4,7", "+0-2" or "all": its syntax, what a list means as a
  set, and how the library's one-pass parser relates to the two.
 */
module NumberLists {
  import opened Words
  import opened CText
  import opened Sets
  import opened Wrappers

  /** What resolve_affinity says of a name: no device name, an error, or the nodes of the device. */
  datatype Device = NotDevice | DeviceFails | DeviceNodes(nodes: set<nat>)

  /** cpus tells __numa_parse_cpustring from __numa_parse_nodestring; allowed is the set relative numbers count in;
      conf is the number of configured cpus or nodes; size is the size of the mask allowed comes in. */
  datatype Env = Env(cpus: bool, allowed: set<nat>, size: nat, conf: nat, relative: bool, device: string -> Device) {
    /** Sizes are ints, and the allowed mask has room for all configured cpus. */
    ghost predicate Valid() {
      size <= 0x7FFF_FFFF && (cpus ==> conf <= size) && forall a :: a in allowed ==> a < size
    }
  }

  // ----- relative numbers -----

  /** The member with nr members below it, or size when there is none. */
  function Select(s: set<nat>, size: nat, nr: nat): (r: nat)
    ensures r <= size
    ensures r < size ==> r in s && Rank(s, r) == nr
    ensures r == size <==> Rank(s, size) <= nr
  {
    if size == 0 then 0
    else
      var r := Select(s, size - 1, nr);
      if r < size - 1 then
        RankMonotone(s, r, size);
        r
      else if size - 1 in s && Rank(s, size - 1) == nr then size - 1
      else size
  }

  lemma SelectMember(s: set<nat>, size: nat, m: nat)
    requires m in s && m < size
    ensures Select(s, size, Rank(s, m)) == m
  {
    var r := Select(s, size, Rank(s, m));
    RankMonotone(s, m, size);
    if r < m { RankMonotone(s, r, m); } else if m < r { RankMonotone(s, m, r); }
  }

  /** A number of the list as an element of the set; a relative number of 2^63 or more is negative as a long. */
  function Resolve(env: Env, v: Word): (n: nat) {
    if !env.relative then v
    else if v >= 0x8000_0000_0000_0000 then ULONG_MODULUS - 1
    else Select(env.allowed, env.size, v)
  }

  // ----- syntax -----

  /** The pieces between commas; All and Named only come last. */
  datatype Item = Num(a: Word) | Span(a: Word, b: Word) | All | Named(name: string)

  predicate IsAlpha(c: char) {
    'a' <= c <= 'z' || 'A' <= c <= 'Z'
  }

  function Items(env: Env, s: Text, pos: nat): Option<seq<Item>>
    requires pos <= |s|
    decreases |s| - pos
  {
    if s[pos..] == "all" then Some([All])
    else if !env.cpus && IsAlpha(At(s, pos)) && env.device(s[pos..]) != NotDevice then Some([Named(s[pos..])])
    else
      var n := Strtoul(s, pos, 0);
      if n.end == pos then None
      else if At(s, n.end) == '-' then
        var m := Strtoul(s, n.end + 1, 0);
        if m.end == n.end + 1 then None else Cons(Span(n.value, m.value), More(env, s, m.end))
      else Cons(Num(n.value), More(env, s, n.end))
  }

  /** What follows an item that ends at e. */
  function More(env: Env, s: Text, e: nat): Option<seq<Item>>
    requires e <= |s|
    decreases |s| - e
  {
    if e == |s| then Some([]) else if s[e] == ',' then Items(env, s, e + 1) else None
  }

  function Cons(i: Item, rest: Option<seq<Item>>): Option<seq<Item>> {
    match rest case None => None case Some(items) => Some([i] + items)
  }

  // ----- meaning -----

  predicate Accepts(env: Env, n: nat) {
    if env.cpus then n < env.conf else n in env.allowed
  }

  predicate Good(env: Env, i: Item) {
    match i
    case Num(a) => Accepts(env, Resolve(env, a))
    case Span(a, b) => Accepts(env, Resolve(env, a)) && Accepts(env, Resolve(env, b))
    case All => true
    case Named(name) => env.device(name).DeviceNodes?
  }

  /** The first number itself, allowed or not, and the allowed numbers of the range. */
  function SpanSet(env: Env, x: nat, y: nat): set<nat> {
    {x} + set i | i in env.allowed && x <= i <= y
  }

  function ItemSet(env: Env, i: Item): set<nat> {
    match i
    case Num(a) => {Resolve(env, a)}
    case Span(a, b) => SpanSet(env, Resolve(env, a), Resolve(env, b))
    case All => env.allowed
    case Named(name) => if env.device(name).DeviceNodes? then env.device(name).nodes else {}
  }

  ghost predicate AllGood(env: Env, items: seq<Item>) {
    forall k :: 0 <= k < |items| ==> Good(env, items[k])
  }

  /** The union of the items; but "all" is copied over whatever was there. */
  ghost function Meaning(env: Env, items: seq<Item>): set<nat> {
    if All in items then env.allowed else Union(env, items)
  }

  function Union(env: Env, items: seq<Item>): set<nat> {
    if items == [] then {} else ItemSet(env, items[0]) + Union(env, items[1..])
  }

  lemma {:induction false} UnionMember(env: Env, items: seq<Item>, n: nat)
    ensures n in Union(env, items) <==> exists k :: 0 <= k < |items| && n in ItemSet(env, items[k])
  {
    if items != [] {
      UnionMember(env, items[1..], n);
      if n in Union(env, items[1..]) {
        var k :| 0 <= k < |items[1..]| && n in ItemSet(env, items[1..][k]);
        assert items[k + 1] == items[1..][k];
      }
      if k :| 0 < k < |items| && n in ItemSet(env, items[k]) {
        assert items[1..][k - 1] == items[k];
      }
    }
  }

  // ----- the one-pass parser, as a function -----

  /** The mask after the list from pos on, acc being the mask so far; None for the error return. */
  function ParseFrom(env: Env, s: Text, pos: nat, acc: set<nat>): Option<set<nat>>
    requires pos <= |s|
    decreases |s| - pos
  {
    if s[pos..] == "all" then Some(env.allowed)
    else if !env.cpus && IsAlpha(At(s, pos)) && env.device(s[pos..]) != NotDevice then
      if env.device(s[pos..]).DeviceFails? then None else Some(acc + env.device(s[pos..]).nodes)
    else
      var n := Strtoul(s, pos, 0);
      var x := Resolve(env, n.value);
      if n.end == pos || !Accepts(env, x) then None
      else if At(s, n.end) == '-' then
        var m := Strtoul(s, n.end + 1, 0);
        var y := Resolve(env, m.value);
        if m.end == n.end + 1 || !Accepts(env, y) then None
        else ParseMore(env, s, m.end, acc + SpanSet(env, x, y))
      else ParseMore(env, s, n.end, acc + {x})
  }

  function ParseMore(env: Env, s: Text, e: nat, acc: set<nat>): Option<set<nat>>
    requires e <= |s|
    decreases |s| - e
  {
    if e == |s| then Some(acc) else if s[e] == ',' then ParseFrom(env, s, e + 1, acc) else None
  }

  function Result(env: Env, items: Option<seq<Item>>, acc: set<nat>): Option<set<nat>> {
    if items.Some? && forall k :: 0 <= k < |items.value| ==> Good(env, items.value[k])
    then Some(if All in items.value then env.allowed else acc + Union(env, items.value))
    else None
  }

  lemma ResultCons(env: Env, i: Item, rest: Option<seq<Item>>, acc: set<nat>)
    requires i != All
    ensures Result(env, Cons(i, rest), acc) == if Good(env, i) then Result(env, rest, acc + ItemSet(env, i)) else None
  {
    if rest.Some? {
      var items := [i] + rest.value;
      assert items[1..] == rest.value && items[0] == i;
      assert forall k :: 0 <= k < |rest.value| ==> rest.value[k] == items[k + 1];
      assert All in items <==> All in rest.value;
      assert acc + Union(env, items) == acc + ItemSet(env, i) + Union(env, rest.value);
      assert (forall k :: 0 <= k < |items| ==> Good(env, items[k])) <==>
             Good(env, i) && (forall k :: 0 <= k < |rest.value| ==> Good(env, rest.value[k])) by {
        hide Good;
        assert forall k :: 0 < k < |items| ==> items[k] == rest.value[k - 1];
      }
    }
  }

  /** Parsing in one pass is parsing the items and then taking their meaning: the list is refused exactly when it
      is ill-formed or one of its numbers is out of range. */
  lemma {:induction false} OnePassIsMeaning(env: Env, s: Text, pos: nat, acc: set<nat>)
    requires pos <= |s|
    ensures ParseFrom(env, s, pos, acc) == Result(env, Items(env, s, pos), acc)
    decreases |s| - pos, 1
  {
    hide Strtoul, Resolve, SpanSet, Result;
    if s[pos..] == "all" {
      ResultOf(env, All, acc);
    } else if !env.cpus && IsAlpha(At(s, pos)) && env.device(s[pos..]) != NotDevice {
      ResultOf(env, Named(s[pos..]), acc);
    } else {
      var n := Strtoul(s, pos, 0);
      var x := Resolve(env, n.value);
      if n.end == pos {
        NoResult(env, acc);
      } else if At(s, n.end) == '-' {
        var m := Strtoul(s, n.end + 1, 0);
        if m.end == n.end + 1 {
          NoResult(env, acc);
        } else {
          ResultCons(env, Span(n.value, m.value), More(env, s, m.end), acc);
          MoreIsMeaning(env, s, m.end, acc + SpanSet(env, x, Resolve(env, m.value)));
        }
      } else {
        ResultCons(env, Num(n.value), More(env, s, n.end), acc);
        MoreIsMeaning(env, s, n.end, acc + {x});
      }
    }
  }

  lemma {:induction false} MoreIsMeaning(env: Env, s: Text, e: nat, acc: set<nat>)
    requires e <= |s|
    ensures ParseMore(env, s, e, acc) == Result(env, More(env, s, e), acc)
    decreases |s| - e, 0
  {
    hide Items;
    assert acc + Union(env, []) == acc;
    if e < |s| && s[e] == ',' { OnePassIsMeaning(env, s, e + 1, acc); }
  }

  lemma NoResult(env: Env, acc: set<nat>)
    ensures Result(env, None, acc) == None
  {
  }

  lemma ResultOf(env: Env, i: Item, acc: set<nat>)
    ensures Result(env, Some([i]), acc) ==
              if !Good(env, i) then None else if i == All then Some(env.allowed) else Some(acc + ItemSet(env, i))
  {
    ResultCons0(env, i);
    assert [i][0] == i && (All in [i] <==> i == All);
    assert acc + Union(env, [i]) == acc + ItemSet(env, i);
  }

  lemma ResultCons0(env: Env, i: Item)
    ensures Union(env, [i]) == ItemSet(env, i)
  {
    assert [i][1..] == [];
  }

  // ----- whole lists -----

  /** The optional "!" and "+" in front. */
  function AfterBang(s: Text): nat {
    if At(s, 0) == '!' then 1 else 0
  }

  function AfterPlus(s: Text): (p: nat)
    ensures p <= |s|
  {
    if At(s, AfterBang(s)) == '+' then AfterBang(s) + 1 else AfterBang(s)
  }

  /** Inverting flips the numbers below conf and leaves the others. */
  function Flip(m: set<nat>, conf: nat): (r: set<nat>) {
    (m - Below(conf)) + (Below(conf) - m)
  }

  /** The mask a list stands for, or None if it is refused. env.relative is taken from the list. */
  function Parse(env: Env, s: Text): Option<set<nat>> {
    if s == [] then Some({})
    else
      var env' := env.(relative := At(s, AfterBang(s)) == '+');
      match ParseFrom(env', s, AfterPlus(s), {})
      case None => None
      case Some(m) => Some(if At(s, 0) == '!' then Flip(m, env.conf) else m)
  }

  function ListItems(env: Env, s: Text): Option<seq<Item>> {
    Items(env.(relative := At(s, AfterBang(s)) == '+'), s, AfterPlus(s))
  }

  /** What every list means: the flipped or plain meaning of its items, and a refusal if it is ill-formed or if one
      of its numbers is out of range. */
  lemma ParseIsMeaning(env: Env, s: Text)
    requires s != []
    ensures var env' := env.(relative := At(s, AfterBang(s)) == '+');
            var items := ListItems(env, s);
            if items.Some? && AllGood(env', items.value)
            then
              var m := Meaning(env', items.value);
              Parse(env, s) == Some(if At(s, 0) == '!' then Flip(m, env.conf) else m)
            else Parse(env, s) == None
  {
    hide Items, ParseFrom, Good, Union, Flip;
    var env' := env.(relative := At(s, AfterBang(s)) == '+');
    OnePassIsMeaning(env', s, AfterPlus(s), {});
    var items := ListItems(env, s);
    if items.Some? { assert {} + Union(env', items.value) == Union(env', items.value); }
  }

  // ----- relative ranges -----

  /** The number of members. */
  function Weight(env: Env): nat {
    Rank(env.allowed, env.size)
  }

  /** A relative range "a-b" is refused when a or b reaches the number of allowed members, and, in a cpu list, when it
      selects a cpu that is not configured; otherwise it selects the members of rank a to b, or just the one of rank
      a when b is smaller. */
  lemma RelativeSpan(env: Env, a: Word, b: Word)
    requires env.Valid() && env.relative
    ensures Good(env, Span(a, b)) <==>
              a < Weight(env) && b < Weight(env) &&
              (env.cpus ==> Resolve(env, a) < env.conf && Resolve(env, b) < env.conf)
    ensures Good(env, Span(a, b)) ==> forall m ::
              m in ItemSet(env, Span(a, b)) <==>
                m in env.allowed && (if a <= b then a <= Rank(env.allowed, m) <= b else Rank(env.allowed, m) == a)
  {
    hide Rank, Select;
    var x, y := Resolve(env, a), Resolve(env, b);
    forall m | m in env.allowed && Good(env, Span(a, b))
      ensures x <= m <==> a <= Rank(env.allowed, m)
      ensures m <= y <==> Rank(env.allowed, m) <= b
      ensures m == x <==> Rank(env.allowed, m) == a
    {
      RankOrder(env.allowed, x, m);
      RankOrder(env.allowed, m, y);
    }
  }

  // ----- plain and inverted lists -----

  /** A node list that names no device stays within the allowed nodes. */
  lemma MeaningStaysAllowed(env: Env, items: seq<Item>)
    requires !env.cpus && AllGood(env, items) && forall i :: i in items ==> !i.Named?
    ensures Meaning(env, items) <= env.allowed
  {
    hide Resolve;
    forall n | n in Union(env, items)
      ensures n in env.allowed
    {
      UnionMember(env, items, n);
      var k :| 0 <= k < |items| && n in ItemSet(env, items[k]);
      assert Good(env, items[k]) && items[k] in items;
    }
  }

  /** So does a whole list without "!". */
  lemma NodeListsStayAllowed(env: Env, s: Text, m: set<nat>)
    requires !env.cpus && At(s, 0) != '!' && Parse(env, s) == Some(m)
    requires s != [] ==> ListItems(env, s).Some? && forall i :: i in ListItems(env, s).value ==> !i.Named?
    ensures m <= env.allowed
  {
    hide Items, Resolve, Flip, Meaning, Good;
    if s != [] {
      ParseIsMeaning(env, s);
      MeaningStaysAllowed(env.(relative := At(s, AfterBang(s)) == '+'), ListItems(env, s).value);
    }
  }

  /** A cpu list without "!" and "all" stays within the configured cpus. */
  lemma CpuListsStayConfigured(env: Env, items: seq<Item>)
    requires env.cpus && AllGood(env, items) && All !in items && forall i :: i in items ==> !i.Named?
    ensures Meaning(env, items) <= Below(env.conf)
  {
    hide Resolve, Below;
    forall n | n in Union(env, items)
      ensures n < env.conf
    {
      UnionMember(env, items, n);
      var k :| 0 <= k < |items| && n in ItemSet(env, items[k]);
      assert Good(env, items[k]) && items[k] in items;
    }
  }

  /** Items of cpu lists are never device names. */
  lemma {:induction false} NoDevices(env: Env, s: Text, pos: nat)
    requires env.cpus && pos <= |s|
    ensures var items := Items(env, s, pos); items.Some? ==> forall i :: i in items.value ==> !i.Named?
    decreases |s| - pos
  {
    hide Strtoul;
    var n := Strtoul(s, pos, 0);
    if s[pos..] != "all" && n.end != pos {
      var e := if At(s, n.end) == '-' then Strtoul(s, n.end + 1, 0).end else n.end;
      if e < |s| && s[e] == ',' { NoDevices(env, s, e + 1); }
    }
  }

  /** Flipping as many low numbers as there are nodes gives the other nodes exactly when the nodes are numbered without
      gaps and the list names nothing else. */
  lemma FlipIsComplement(m: set<nat>, nodes: set<nat>)
    ensures Flip(m, |nodes|) == nodes - m <==> nodes == Below(|nodes|) && m <= nodes
  {
    hide Below;
    if nodes != Below(|nodes|) {
      var x := BeyondCount(nodes);
      assert x in Flip(m, |nodes|) <==> x in m;
      assert x in nodes - m <==> x !in m;
    } else if !(m <= nodes) {
      var x :| x in m && x !in nodes;
      assert x in Flip(m, |nodes|);
    }
  }

  /** "!" in front of a node list, where the number of configured nodes is that of the nodes: it stands for all nodes
      except those of the list exactly when they are numbered without gaps and the list is one of nodes. */
  lemma InvertedNodeList(env: Env, s: Text, nodes: set<nat>)
    requires !env.cpus && At(s, 0) == '!' && Parse(env, s).Some? && env.conf == |nodes|
    ensures ListItems(env, s).Some?
    ensures var m := Meaning(env.(relative := At(s, 1) == '+'), ListItems(env, s).value);
            Parse(env, s) == Some(nodes - m) <==> nodes == Below(|nodes|) && m <= nodes
  {
    hide Items, Below, Meaning, Flip, Good;
    var env' := env.(relative := At(s, AfterBang(s)) == '+');
    ParseIsMeaning(env, s);
    FlipIsComplement(Meaning(env', ListItems(env, s).value), nodes);
  }

  /** In particular a list without device names, taken within nodes that may be used. */
  lemma InvertedAllowedList(env: Env, s: Text, nodes: set<nat>)
    requires !env.cpus && At(s, 0) == '!' && Parse(env, s).Some? && env.conf == |nodes| && env.allowed <= nodes
    requires ListItems(env, s).Some? ==> forall i :: i in ListItems(env, s).value ==> !i.Named?
    ensures ListItems(env, s).Some?
    ensures var m := Meaning(env.(relative := At(s, 1) == '+'), ListItems(env, s).value);
            Parse(env, s) == Some(nodes - m) <==> nodes == Below(|nodes|)
  {
    hide Items, Below, Meaning, Flip, Resolve, Good;
    InvertedNodeList(env, s, nodes);
    ParseIsMeaning(env, s);
    var env' := env.(relative := At(s, AfterBang(s)) == '+');
    MeaningStaysAllowed(env', ListItems(env, s).value);
  }

  /** On a machine with the nodes 0 and 2, "!0" is the node 1, which does not exist. */
  lemma NotNodeZero(env: Env)
    requires !env.cpus && env.allowed == {0, 2} && env.conf == 2
    ensures Parse(env, "!0") == Some({1}) && {0, 2} - {0} == {2}
  {
    var env' := env.(relative := false);
    hide Strtoul, ParseFrom, Flip;
    ScanZero();
    OneNumber(env', "!0", 1, 0);
    FlipZero();
  }

  lemma ScanZero()
    ensures Strtoul("!0", 1, 0) == Scan(0, 2)
  {
    hide Strtoul;
    DecimalValue(0);
    StrtoulDecimal("!0", 1, 1, 0);
  }

  lemma FlipZero()
    ensures Flip({0}, 2) == {1}
  {
  }

  lemma OneNumber(env: Env, s: Text, pos: nat, n: nat)
    requires pos < |s| && n < ULONG_MODULUS && Strtoul(s, pos, 0) == Scan(n, |s|)
    requires !IsAlpha(s[pos]) && !env.relative && Accepts(env, n)
    ensures ParseFrom(env, s, pos, {}) == Some({n})
  {
    hide Strtoul;
    assert s[pos..][0] == s[pos];
    assert {} + {n} == {n};
  }

  lemma FlipWithin(m: set<nat>, conf: nat)
    requires m <= Below(conf)
    ensures Flip(m, conf) == Below(conf) - m
  {
    hide Below;
  }

  /** "!" in front of a cpu list without "all" is the complement in the configured cpus. */
  lemma InvertedCpuList(env: Env, s: Text)
    requires env.cpus && At(s, 0) == '!' && Parse(env, s).Some? &&
             ListItems(env, s).Some? && All !in ListItems(env, s).value
    ensures var env' := env.(relative := At(s, 1) == '+');
            Parse(env, s) == Some(Below(env.conf) - Meaning(env', ListItems(env, s).value))
  {
    hide Items, Resolve, Below, Meaning, Flip, Good;
    var env' := env.(relative := At(s, AfterBang(s)) == '+');
    ParseIsMeaning(env, s);
    NoDevices(env', s, AfterPlus(s));
    CpuListsStayConfigured(env', ListItems(env, s).value);
    FlipWithin(Meaning(env', ListItems(env, s).value), env.conf);
  }

  /** An inverted "all" is the complement only if no allowed cpu lies beyond the configured ones. */
  lemma InvertedAll(env: Env)
    requires env.cpus
    ensures Parse(env, "!all") == Some(Flip(env.allowed, env.conf))
    ensures Flip(env.allowed, env.conf) == Below(env.conf) - env.allowed <==> env.allowed <= Below(env.conf)
  {
    hide Below;
    assert "!all"[1..] == "all";
    if x :| x in env.allowed && x !in Below(env.conf) {
      assert x in Flip(env.allowed, env.conf);
    }
  }
}
