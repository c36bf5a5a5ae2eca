/**
  Node and cpu lists as they are written, from the text to the set: which lists are refused, and which numbers the
  others stand for.
 */
module ListLanguage {
  import opened Words
  import opened CText
  import opened Sets
  import opened Wrappers
  import opened NumberLists
  import opened ListRoundTrips

  /** What can be written between commas, apart from "all" and device names. */
  datatype Part = One(a: nat) | Range(a: nat, b: nat)

  function PartText(p: Part): Text {
    match p
    case One(a) => Decimal(a)
    case Range(a, b) => Decimal(a) + (['-'] + Decimal(b))
  }

  /** The parts with commas between them, and then end. */
  function PartsText(ps: seq<Part>, end: Text): Text {
    if ps == [] then end
    else PartText(ps[0]) + if |ps| == 1 then end else [','] + PartsText(ps[1..], end)
  }

  function Prefix(bang: bool, plus: bool): Text {
    (if bang then ['!'] else []) + if plus then ['+'] else []
  }

  function ToItem(p: Part): Item {
    match p
    case One(a) => Num(Saturated(a))
    case Range(a, b) => Span(Saturated(a), Saturated(b))
  }

  function ToItems(ps: seq<Part>): (items: seq<Item>)
    ensures |items| == |ps| && forall k :: 0 <= k < |ps| ==> items[k] == ToItem(ps[k])
  {
    if ps == [] then [] else [ToItem(ps[0])] + ToItems(ps[1..])
  }

  // ----- syntax -----

  /** Text in front of which a number ends and no range begins. */
  predicate Closes(rest: Text) {
    rest == [] || (DigitValue(rest[0]) == 36 && rest[0] != '-')
  }

  /** From pos on the text is u. */
  ghost predicate Reads(t: Text, pos: nat, u: Text) {
    pos <= |t| && t[pos..] == u
  }

  lemma ReadPart(env: Env, t: Text, pos: nat, p: Part, rest: Text) returns (e: nat)
    requires Reads(t, pos, PartText(p) + rest) && Closes(rest)
    ensures pos < e == |t| - |rest| && Reads(t, e, rest) && Items(env, t, pos) == Cons(ToItem(p), More(env, t, e))
  {
    hide *;
    PartCases(p, rest);
    match p
    case One(a) => e := ReadOne(env, t, pos, a, rest);
    case Range(a, b) => e := ReadRangePart(env, t, pos, a, b, Decimal(b) + rest, rest);
  }

  lemma PartCases(p: Part, rest: Text)
    ensures p.One? ==> PartText(p) + rest == Decimal(p.a) + rest && ToItem(p) == Num(Saturated(p.a))
    ensures p.Range? ==> PartText(p) + rest == Decimal(p.a) + (['-'] + (Decimal(p.b) + rest))
    ensures p.Range? ==> ToItem(p) == Span(Saturated(p.a), Saturated(p.b))
  {
    hide Decimal;
  }

  lemma ReadOne(env: Env, t: Text, pos: nat, a: nat, rest: Text) returns (e: nat)
    requires Reads(t, pos, Decimal(a) + rest) && Closes(rest)
    ensures pos < e == |t| - |rest| && Reads(t, e, rest)
    ensures Items(env, t, pos) == Cons(Num(Saturated(a)), More(env, t, e))
  {
    hide *;
    NoWord(t, pos, a, rest);
    e := LastNumber(t, pos, a, rest);
    ReadNumber(env, t, pos, Saturated(a), e);
  }

  lemma ReadRangePart(env: Env, t: Text, pos: nat, a: nat, b: nat, more: Text, rest: Text) returns (f: nat)
    requires Reads(t, pos, Decimal(a) + (['-'] + more)) && more == Decimal(b) + rest && Closes(rest)
    ensures pos < f == |t| - |rest| && Reads(t, f, rest)
    ensures Items(env, t, pos) == Cons(Span(Saturated(a), Saturated(b)), More(env, t, f))
  {
    hide *;
    NoWord(t, pos, a, ['-'] + more);
    var e := FirstNumber(t, pos, a, more);
    f := LastNumber(t, e + 1, b, rest);
    ReadSpanItem(env, t, pos, Saturated(a), e, Saturated(b), f);
  }

  /** A number in front of a dash. */
  lemma FirstNumber(t: Text, pos: nat, n: nat, more: Text) returns (e: nat)
    requires Reads(t, pos, Decimal(n) + (['-'] + more))
    ensures pos < e < |t| && Strtoul(t, pos, 0) == Scan(Saturated(n), e) && At(t, e) == '-' && Reads(t, e + 1, more)
  {
    hide Decimal, Strtoul;
    NumberFollowedBy(t, pos, pos, n, ['-'] + more);
    e := pos + |Decimal(n)|;
    assert t[e] == t[e..][0];
    assert t[e + 1..] == t[e..][1..];
  }

  /** A number with rest behind it. */
  lemma LastNumber(t: Text, pos: nat, n: nat, rest: Text) returns (e: nat)
    requires Reads(t, pos, Decimal(n) + rest) && Closes(rest)
    ensures pos < e == |t| - |rest| && Strtoul(t, pos, 0) == Scan(Saturated(n), e)
    ensures Reads(t, e, rest) && At(t, e) != '-'
  {
    hide Decimal, Strtoul;
    NumberFollowedBy(t, pos, pos, n, rest);
    e := pos + |Decimal(n)|;
    if rest != [] { assert t[e] == t[e..][0]; }
  }

  /** Text that is not read as a word. */
  ghost predicate Plain(t: Text, pos: nat) {
    pos <= |t| && t[pos..] != "all" && !IsAlpha(At(t, pos))
  }

  lemma NoWord(t: Text, pos: nat, n: nat, more: Text)
    requires Reads(t, pos, Decimal(n) + more)
    ensures Plain(t, pos)
  {
    hide Decimal;
    assert t[pos..] == [] + (Decimal(n) + more);
    StartsWithDigit(t, pos, [], n, more);
  }

  lemma ReadNumber(env: Env, t: Text, pos: nat, v: Word, e: nat)
    requires pos < e <= |t| && Plain(t, pos)
    requires Strtoul(t, pos, 0) == Scan(v, e) && At(t, e) != '-'
    ensures Items(env, t, pos) == Cons(Num(v), More(env, t, e))
  {
    hide Strtoul, More, IsAlpha;
  }

  lemma ReadSpanItem(env: Env, t: Text, pos: nat, v: Word, e: nat, w: Word, f: nat)
    requires pos < e < e + 1 < f <= |t| && Plain(t, pos)
    requires Strtoul(t, pos, 0) == Scan(v, e) && At(t, e) == '-' && Strtoul(t, e + 1, 0) == Scan(w, f)
    ensures Items(env, t, pos) == Cons(Span(v, w), More(env, t, f))
  {
    hide Strtoul, More, IsAlpha;
  }

  /** Whatever follows the parts, they are read as their items, and then it goes on there. */
  lemma {:induction false} ReadParts(env: Env, t: Text, pos: nat, ps: seq<Part>, end: Text) returns (e: nat)
    requires ps != [] && Reads(t, pos, PartsText(ps, end)) && Closes(end)
    ensures pos < e == |t| - |end| && Reads(t, e, end)
    ensures Items(env, t, pos) == Append(ToItems(ps), More(env, t, e))
    decreases |ps|
  {
    hide *;
    PartsCases(ps, end);
    if |ps| == 1 {
      e := ReadPart(env, t, pos, ps[0], end);
      OneItem(ps, More(env, t, e));
    } else {
      var c := ReadPart(env, t, pos, ps[0], [','] + PartsText(ps[1..], end));
      AfterComma(env, t, c, PartsText(ps[1..], end));
      e := ReadParts(env, t, c + 1, ps[1..], end);
      MoreItems(ps, More(env, t, e));
    }
  }

  lemma PartsCases(ps: seq<Part>, end: Text)
    requires ps != []
    ensures |ps| == 1 ==> PartsText(ps, end) == PartText(ps[0]) + end
    ensures |ps| > 1 ==> PartsText(ps, end) == PartText(ps[0]) + ([','] + PartsText(ps[1..], end))
    ensures Closes([','] + PartsText(ps[1..], end))
  {
    hide PartText;
  }

  lemma AfterComma(env: Env, t: Text, c: nat, more: Text)
    requires Reads(t, c, [','] + more)
    ensures Reads(t, c + 1, more) && More(env, t, c) == Items(env, t, c + 1)
  {
    hide Items;
    assert t[c] == t[c..][0];
    assert t[c + 1..] == t[c..][1..];
  }

  function Append(items: seq<Item>, rest: Option<seq<Item>>): Option<seq<Item>> {
    match rest case None => None case Some(more) => Some(items + more)
  }

  lemma OneItem(ps: seq<Part>, rest: Option<seq<Item>>)
    requires |ps| == 1
    ensures Cons(ToItem(ps[0]), rest) == Append(ToItems(ps), rest)
  {
    assert ToItems(ps) == [ToItem(ps[0])];
  }

  lemma MoreItems(ps: seq<Part>, rest: Option<seq<Item>>)
    requires ps != []
    ensures Cons(ToItem(ps[0]), Append(ToItems(ps[1..]), rest)) == Append(ToItems(ps), rest)
  {
    var i, items := ToItem(ps[0]), ToItems(ps[1..]);
    if rest.Some? { assert [i] + (items + rest.value) == [i] + items + rest.value; }
  }

  /** The text of a list: a prefix, parts, and an end. */
  function Written(bang: bool, plus: bool, ps: seq<Part>, end: Text): Text {
    Prefix(bang, plus) + PartsText(ps, end)
  }

  /** Where the parts of a written list begin. */
  lemma AfterPrefix(bang: bool, plus: bool, ps: seq<Part>, end: Text)
    requires ps != []
    ensures var s := Written(bang, plus, ps, end);
            && s != [] && (At(s, 0) == '!' <==> bang) && (At(s, AfterBang(s)) == '+' <==> plus)
            && Reads(s, AfterPlus(s), PartsText(ps, end))
  {
    hide Decimal;
    var t := PartsText(ps, end);
    assert t[0] == Decimal(ps[0].a)[0];
    assert '0' <= t[0] <= '9';
  }

  /** What the items of a written list are: those of its parts and those of its end. */
  lemma WrittenItems(env: Env, bang: bool, plus: bool, ps: seq<Part>, end: Text)
    requires ps != [] && Closes(end)
    ensures var s := Written(bang, plus, ps, end);
            && |end| <= |s| && Reads(s, |s| - |end|, end)
            && ListItems(env, s) == Append(ToItems(ps), More(env.(relative := plus), s, |s| - |end|))
  {
    hide *;
    AfterPrefix(bang, plus, ps, end);
    var s := Written(bang, plus, ps, end);
    var e := ReadParts(env.(relative := plus), s, AfterPlus(s), ps, end);
    ItemsOf(env, s, plus);
  }

  lemma ItemsOf(env: Env, s: Text, plus: bool)
    requires At(s, AfterBang(s)) == '+' <==> plus
    ensures ListItems(env, s) == Items(env.(relative := plus), s, AfterPlus(s))
  {
    hide Items;
  }

  // ----- meaning -----

  /** Nothing follows the parts. */
  lemma WholeList(env: Env, bang: bool, plus: bool, ps: seq<Part>)
    requires ps != []
    ensures ListItems(env, Written(bang, plus, ps, [])) == Some(ToItems(ps))
    ensures All !in ToItems(ps)
  {
    hide Items, Written, ListItems, Reads;
    WrittenItems(env, bang, plus, ps, []);
    assert ToItems(ps) + [] == ToItems(ps);
  }

  /** m is in a set, or in the set turned over below conf. */
  predicate Turned(bang: bool, conf: nat, m: nat, inSet: bool) {
    if bang && m < conf then !inSet else inSet
  }

  /** The list is good if its parts are, and stands for what one of them stands for. */
  lemma PartByPart(env: Env, bang: bool, plus: bool, ps: seq<Part>)
    requires ps != []
    ensures var env' := env.(relative := plus);
            var list := Parse(env, Written(bang, plus, ps, []));
            && (list.Some? <==> forall p :: p in ps ==> Good(env', ToItem(p)))
            && (list.Some? ==> forall m: nat :: m in list.value <==>
                  Turned(bang, env.conf, m, exists p :: p in ps && m in ItemSet(env', ToItem(p))))
  {
    hide Items, Written, ListItems, Good, ItemSet, ToItem, Union, AfterPlus, Reads;
    var env' := env.(relative := plus);
    var s := Written(bang, plus, ps, []);
    WholeList(env, bang, plus, ps);
    AfterPrefix(bang, plus, ps, []);
    ParseIsMeaning(env, s);
    var items := ToItems(ps);
    assert AllGood(env', items) <==> forall p :: p in ps ==> Good(env', ToItem(p)) by {
      forall p | p in ps && AllGood(env', items)
        ensures Good(env', ToItem(p))
      {
        var k :| 0 <= k < |ps| && ps[k] == p;
        assert Good(env', items[k]);
      }
    }
    forall m: nat
      ensures m in Union(env', items) <==> exists p :: p in ps && m in ItemSet(env', ToItem(p))
    {
      UnionMember(env', items, m);
      if p :| p in ps && m in ItemSet(env', ToItem(p)) {
        var k :| 0 <= k < |ps| && ps[k] == p;
        assert m in ItemSet(env', items[k]);
      }
    }
  }

  /** Lists of absolute numbers. A cpu list is refused exactly when a number in it is not below the number of
      configured cpus, a node list when one is not an allowed node. Otherwise a number alone stands for itself, allowed
      or not, and a range for its first number and the allowed numbers from there to its last one. */
  lemma AbsoluteList(env: Env, bang: bool, ps: seq<Part>)
    requires env.Valid() && ps != []
    ensures var list := Parse(env, Written(bang, false, ps, []));
            && (list.Some? <==> forall p :: p in ps ==>
                  if env.cpus then p.a < env.conf && (p.Range? ==> p.b < env.conf)
                  else p.a in env.allowed && (p.Range? ==> p.b in env.allowed))
            && (list.Some? ==> forall m: nat :: m in list.value <==>
                  Turned(bang, env.conf, m,
                         exists p :: p in ps && (m == p.a || (p.Range? && p.a <= m <= p.b && m in env.allowed))))
  {
    hide Parse, Written;
    PartByPart(env, bang, false, ps);
    var env' := env.(relative := false);
    hide Good, ItemSet, ToItem;
    forall p: Part
      ensures Good(env', ToItem(p)) <==>
                if env.cpus then p.a < env.conf && (p.Range? ==> p.b < env.conf)
                else p.a in env.allowed && (p.Range? ==> p.b in env.allowed)
      ensures Good(env', ToItem(p)) ==> forall m: nat :: m in ItemSet(env', ToItem(p)) <==>
                m == p.a || (p.Range? && p.a <= m <= p.b && m in env.allowed)
    {
      AbsolutePart(env', p);
    }
  }

  lemma AbsolutePart(env: Env, p: Part)
    requires env.Valid() && !env.relative
    ensures Good(env, ToItem(p)) <==>
              if env.cpus then p.a < env.conf && (p.Range? ==> p.b < env.conf)
              else p.a in env.allowed && (p.Range? ==> p.b in env.allowed)
    ensures Good(env, ToItem(p)) ==> forall m: nat :: m in ItemSet(env, ToItem(p)) <==>
              m == p.a || (p.Range? && p.a <= m <= p.b && m in env.allowed)
  {
  }

  /** How many members are below m. */
  ghost function Position(s: set<nat>, m: nat): nat {
    |set x | x in s && x < m|
  }

  /** Number a of a list that counts in the allowed set: there are more than a allowed numbers, and in a cpu list the
      one with a of them below it is configured. */
  ghost predicate Counts(env: Env, a: nat) {
    a < |env.allowed| && (env.cpus ==> forall m :: m in env.allowed && Position(env.allowed, m) == a ==> m < env.conf)
  }

  /** The allowed number at a position, or those from one to another, the first included in any case. */
  ghost predicate AtPosition(s: set<nat>, m: nat, p: Part) {
    m in s && (Position(s, m) == p.a || (p.Range? && p.a <= Position(s, m) <= p.b))
  }

  /** Lists with "+": the numbers are positions in the allowed set. A number alone stands for the allowed number at its
      position, a range for those from its first position to its last, or for the first alone. */
  lemma RelativeList(env: Env, bang: bool, ps: seq<Part>)
    requires env.Valid() && ps != []
    ensures var list := Parse(env, Written(bang, true, ps, []));
            && (list.Some? <==> forall p :: p in ps ==> Counts(env, p.a) && (p.Range? ==> Counts(env, p.b)))
            && (list.Some? ==> forall m: nat :: m in list.value <==>
                  Turned(bang, env.conf, m, exists p :: p in ps && AtPosition(env.allowed, m, p)))
  {
    hide Parse, Written, Good, ItemSet, ToItem, Counts, Position, AtPosition;
    PartByPart(env, bang, true, ps);
    var env' := env.(relative := true);
    forall p: Part
      ensures Good(env', ToItem(p)) <==> Counts(env, p.a) && (p.Range? ==> Counts(env, p.b))
      ensures Good(env', ToItem(p)) ==>
                forall m: nat :: m in ItemSet(env', ToItem(p)) <==> AtPosition(env.allowed, m, p)
    {
      RelativePart(env', p);
      SamePositions(env, env');
    }
  }

  lemma SamePositions(env: Env, env': Env)
    requires env' == env.(relative := true)
    ensures forall a: nat :: Counts(env', a) <==> Counts(env, a)
  {
  }

  lemma RelativePart(env: Env, p: Part)
    requires env.Valid() && env.relative
    ensures Good(env, ToItem(p)) <==> Counts(env, p.a) && (p.Range? ==> Counts(env, p.b))
    ensures Good(env, ToItem(p)) ==> forall m: nat :: m in ItemSet(env, ToItem(p)) <==> AtPosition(env.allowed, m, p)
  {
    hide Rank, Select, Position, Counts, Resolve;
    Selected(env, p.a);
    if p.Range? { Selected(env, p.b); }
    if Good(env, ToItem(p)) {
      var x := Resolve(env, Saturated(p.a));
      forall m | m in env.allowed
        ensures (m == x <==> Position(env.allowed, m) == p.a) && (x <= m <==> p.a <= Position(env.allowed, m))
      {
        InOrder(env.allowed, x, m);
      }
      if p.Range? {
        var y := Resolve(env, Saturated(p.b));
        forall m | m in env.allowed
          ensures m <= y <==> Position(env.allowed, m) <= p.b
        {
          InOrder(env.allowed, m, y);
        }
      }
    }
  }

  lemma InOrder(s: set<nat>, x: nat, y: nat)
    requires x in s && y in s
    ensures x <= y <==> Position(s, x) <= Position(s, y)
    ensures x == y <==> Position(s, x) == Position(s, y)
  {
    RankCounts(s, x);
    RankCounts(s, y);
    RankOrder(s, x, y);
  }

  /** What a number resolves to. */
  lemma Selected(env: Env, a: nat)
    requires env.Valid() && env.relative
    ensures Accepts(env, Resolve(env, Saturated(a))) <==> Counts(env, a)
    ensures Counts(env, a) ==>
              var x := Resolve(env, Saturated(a)); x in env.allowed && Position(env.allowed, x) == a
  {
    hide Rank, Select;
    var s, n := env.allowed, env.size;
    RankIsCardinality(s, n);
    assert |s| <= n;
    if a < |s| {
      var x := Select(s, n, a);
      RankCounts(s, x);
      forall m | m in s && Position(s, m) == a
        ensures m == x
      {
        InOrder(s, m, x);
      }
    }
  }

  // ----- "all", and what is refused -----

  /** "all", alone or behind other parts, stands for the allowed set whatever they are, as long as they would be
      accepted. */
  lemma AllList(env: Env, bang: bool, plus: bool, ps: seq<Part>)
    ensures Parse(env, Prefix(bang, plus) + "all") == Some(if bang then Flip(env.allowed, env.conf) else env.allowed)
    ensures ps != [] ==>
              var list := Parse(env, Written(bang, plus, ps, ",all"));
              && (list.Some? <==> Parse(env, Written(bang, plus, ps, [])).Some?)
              && (list.Some? ==> list.value == if bang then Flip(env.allowed, env.conf) else env.allowed)
  {
    hide Flip;
    AllAlone(env, bang, plus);
    if ps != [] { AllBehind(env, bang, plus, ps); }
  }

  lemma AllAlone(env: Env, bang: bool, plus: bool)
    ensures Parse(env, Prefix(bang, plus) + "all") == Some(if bang then Flip(env.allowed, env.conf) else env.allowed)
  {
    hide Flip;
    var s := Prefix(bang, plus) + "all";
    assert At(s, 0) == '!' <==> bang;
    assert At(s, AfterBang(s)) == '+' <==> plus;
    assert s[AfterPlus(s)..] == "all";
  }

  lemma AllBehind(env: Env, bang: bool, plus: bool, ps: seq<Part>)
    requires ps != []
    ensures var list := Parse(env, Written(bang, plus, ps, ",all"));
            && (list.Some? <==> Parse(env, Written(bang, plus, ps, [])).Some?)
            && (list.Some? ==> list.value == if bang then Flip(env.allowed, env.conf) else env.allowed)
  {
    hide Parse, Written, Good, Flip, More, ToItem, ItemSet, Turned, Reads;
    MoreAll(env.(relative := plus), Written(bang, plus, ps, ",all"));
    AllIsGood(env.(relative := plus));
    WrittenWithLast(env, bang, plus, ps, ",all", All);
  }

  /** One more item behind the parts. */
  lemma WrittenWithLast(env: Env, bang: bool, plus: bool, ps: seq<Part>, end: Text, last: Item)
    requires ps != [] && Closes(end)
    requires var s := Written(bang, plus, ps, end);
             |end| <= |s| && Reads(s, |s| - |end|, end) ==>
               More(env.(relative := plus), s, |s| - |end|) == Some([last])
    ensures var env' := env.(relative := plus);
            var list := Parse(env, Written(bang, plus, ps, end));
            && (list.Some? <==> Parse(env, Written(bang, plus, ps, [])).Some? && Good(env', last))
            && (list.Some? && last == All ==> list.value == if bang then Flip(env.allowed, env.conf) else env.allowed)
            && (list.Some? && last != All ==> forall m: nat :: m in list.value <==>
                  Turned(bang, env.conf, m,
                         m in ItemSet(env', last) || exists p :: p in ps && m in ItemSet(env', ToItem(p))))
  {
    hide Items, Written, ListItems, Good, ItemSet, ToItem, Union, AfterPlus, More, Reads;
    var env' := env.(relative := plus);
    var s := Written(bang, plus, ps, end);
    WrittenItems(env, bang, plus, ps, end);
    AfterPrefix(bang, plus, ps, end);
    ParseIsMeaning(env, s);
    PartByPart(env, bang, plus, ps);
    GoodWithLast(env', ps, last);
    UnionWithLast(env', ps, last);
    ToItemsPlain(ps);
    assert (ToItems(ps) + [last])[|ps|] == last;
  }

  lemma ToItemsPlain(ps: seq<Part>)
    ensures All !in ToItems(ps)
  {
  }

  lemma GoodWithLast(env: Env, ps: seq<Part>, last: Item)
    ensures AllGood(env, ToItems(ps) + [last]) <==> Good(env, last) && forall p :: p in ps ==> Good(env, ToItem(p))
  {
    hide Good, ToItem;
    var items := ToItems(ps) + [last];
    assert items[|ps|] == last;
    forall p | p in ps && AllGood(env, items)
      ensures Good(env, ToItem(p))
    {
      var k :| 0 <= k < |ps| && ps[k] == p;
      assert Good(env, items[k]);
    }
    assert forall k :: 0 <= k < |ps| ==> ps[k] in ps && items[k] == ToItem(ps[k]);
  }

  lemma UnionWithLast(env: Env, ps: seq<Part>, last: Item)
    ensures forall m: nat :: m in Union(env, ToItems(ps) + [last]) <==>
              m in ItemSet(env, last) || exists p :: p in ps && m in ItemSet(env, ToItem(p))
  {
    hide Union, ItemSet, ToItem;
    var items := ToItems(ps) + [last];
    assert items[|ps|] == last;
    assert forall k :: 0 <= k < |ps| ==> ps[k] in ps && items[k] == ToItem(ps[k]);
    forall m: nat
      ensures m in Union(env, items) <==>
                m in ItemSet(env, last) || exists p :: p in ps && m in ItemSet(env, ToItem(p))
    {
      UnionMember(env, items, m);
      if p :| p in ps && m in ItemSet(env, ToItem(p)) {
        var k :| 0 <= k < |ps| && ps[k] == p;
        assert m in ItemSet(env, items[k]);
      }
    }
  }

  lemma AllIsGood(env: Env)
    ensures Good(env, All)
  {
  }

  lemma MoreAll(env: Env, s: Text)
    ensures 4 <= |s| && Reads(s, |s| - 4, ",all") ==> More(env, s, |s| - 4) == Some([All])
  {
    if 4 > |s| || s[|s| - 4..] != ",all" { return; }
    assert s[|s| - 4] == s[|s| - 4..][0];
    assert s[|s| - 3..] == s[|s| - 4..][1..] == "all";
  }

  /** Anything but a comma behind the parts gets the list refused, unless it would belong to the last number or make
      a range of it; and so does a comma with nothing behind it. */
  lemma TailRefused(env: Env, bang: bool, plus: bool, ps: seq<Part>, tail: Text)
    requires ps != [] && tail != [] && DigitValue(tail[0]) == 36 && tail[0] != '-'
    requires tail[0] != ',' || tail == ","
    ensures Parse(env, Written(bang, plus, ps, tail)) == None
  {
    hide *;
    var s := Written(bang, plus, ps, tail);
    TailCloses(tail);
    WrittenItems(env, bang, plus, ps, tail);
    AfterPrefix(bang, plus, ps, tail);
    NoMore(env.(relative := plus), s, tail);
    IllFormed(env, s, ToItems(ps));
  }

  lemma TailCloses(tail: Text)
    requires tail != [] && DigitValue(tail[0]) == 36 && tail[0] != '-'
    ensures Closes(tail)
  {
  }

  lemma NoMore(env: Env, s: Text, tail: Text)
    requires tail != [] && |tail| <= |s| && Reads(s, |s| - |tail|, tail) && (tail[0] != ',' || tail == ",")
    ensures More(env, s, |s| - |tail|) == None
  {
    hide Items;
    assert s[|s| - |tail|] == s[|s| - |tail|..][0] == tail[0];
    if tail[0] == ',' { NothingBehind(env, s); }
  }

  lemma IllFormed(env: Env, s: Text, items: seq<Item>)
    requires s != [] && ListItems(env, s) == Append(items, None)
    ensures Parse(env, s) == None
  {
    hide ListItems, Parse;
    ParseIsMeaning(env, s);
  }

  lemma NothingBehind(env: Env, s: Text)
    ensures Items(env, s, |s|) == None
  {
    NothingToRead(s);
    hide Strtoul;
    assert s[|s|..] == [];
  }

  /** A device name at the end of a node list: the list is refused if the device has no nodes to offer, and otherwise
      its nodes are added to those of the other parts. */
  lemma DeviceList(env: Env, bang: bool, plus: bool, ps: seq<Part>, name: Text)
    requires !env.cpus && name != [] && IsAlpha(name[0]) && name != "all" && env.device(name) != NotDevice
    ensures var list := Parse(env, Written(bang, plus, ps, if ps == [] then name else "," + name));
            && (list.Some? <==>
                  && env.device(name).DeviceNodes?
                  && (ps == [] || Parse(env, Written(bang, plus, ps, [])).Some?))
            && (list.Some? ==> forall m: nat :: m in list.value <==>
                  Turned(bang, env.conf, m,
                         m in env.device(name).nodes
                         || exists p :: p in ps && m in ItemSet(env.(relative := plus), ToItem(p))))
  {
    hide *;
    if ps == [] {
      DeviceAlone(env, bang, plus, name);
    } else {
      DeviceBehind(env, bang, plus, ps, name);
    }
  }

  lemma DeviceAlone(env: Env, bang: bool, plus: bool, name: Text)
    requires !env.cpus && name != [] && IsAlpha(name[0]) && name != "all" && env.device(name) != NotDevice
    ensures var list := Parse(env, Written(bang, plus, [], name));
            && (list.Some? <==> env.device(name).DeviceNodes?)
            && (list.Some? ==> forall m: nat :: m in list.value <==>
                  Turned(bang, env.conf, m, m in env.device(name).nodes))
  {
    var s := Prefix(bang, plus) + name;
    assert At(s, 0) == '!' <==> bang;
    assert At(s, AfterBang(s)) == '+' <==> plus;
    assert s[AfterPlus(s)..] == name;
    assert At(s, AfterPlus(s)) == s[AfterPlus(s)..][0];
  }

  lemma DeviceBehind(env: Env, bang: bool, plus: bool, ps: seq<Part>, name: Text)
    requires !env.cpus && ps != []
    requires name != [] && IsAlpha(name[0]) && name != "all" && env.device(name) != NotDevice
    ensures var list := Parse(env, Written(bang, plus, ps, "," + name));
            && (list.Some? <==>
                  env.device(name).DeviceNodes? && Parse(env, Written(bang, plus, ps, [])).Some?)
            && (list.Some? ==> forall m: nat :: m in list.value <==>
                  Turned(bang, env.conf, m,
                         m in env.device(name).nodes
                         || exists p :: p in ps && m in ItemSet(env.(relative := plus), ToItem(p))))
  {
    hide Parse, Written, Turned, Flip, Items, ToItem, Reads;
    MoreName(env.(relative := plus), Written(bang, plus, ps, "," + name), name);
    WrittenWithLast(env, bang, plus, ps, "," + name, Named(name));
  }

  lemma MoreName(env: Env, s: Text, name: Text)
    requires !env.cpus && name != [] && IsAlpha(name[0]) && name != "all" && env.device(name) != NotDevice
    ensures |name| < |s| && Reads(s, |s| - |name| - 1, "," + name) ==>
              More(env, s, |s| - |name| - 1) == Some([Named(name)])
  {
    if |name| >= |s| || s[|s| - |name| - 1..] != "," + name { return; }
    var e: nat := |s| - |name| - 1;
    assert s[e] == s[e..][0];
    assert s[e + 1..] == s[e..][1..] == name;
    assert s[e + 1] == s[e + 1..][0];
    hide Strtoul;
  }

  // ----- numbers in other forms -----

  /** A single number need not be in decimal: blanks, a sign, "0x" and digits in base 16, or digits in base 8 after
      a 0, are read as C does it. */
  lemma NumberInAnyForm(env: Env, blanks: Text, sign: Text, prefix: Text, digits: Text)
    requires AllBlank(blanks) && digits != [] && (blanks != [] || sign != ['+'])
    requires (sign == [] || sign == ['+'] || sign == ['-']) && (prefix == [] || prefix == "0x" || prefix == "0X")
    requires forall i :: 0 <= i < |digits| ==> DigitValue(digits[i]) < BaseOf(prefix, digits, 0)
    ensures var v := Value(digits, BaseOf(prefix, digits, 0));
            var m := if v >= ULONG_MODULUS then 0xFFFF_FFFF_FFFF_FFFF
                     else if sign == ['-'] then (ULONG_MODULUS - v) % ULONG_MODULUS else v;
            Parse(env, blanks + (sign + (prefix + digits))) ==
              if (if env.cpus then m < env.conf else m in env.allowed) then Some({m}) else None
  {
    hide *;
    var s := blanks + (sign + (prefix + digits));
    assert s + [] == s;
    StrtoulForm(blanks, sign, prefix, digits, [], 0);
    FirstCharacterOf(blanks, sign, prefix, digits);
    ReadsOne(env, s, Strtoul(s, 0, 0).value);
  }

  lemma FirstCharacterOf(blanks: Text, sign: Text, prefix: Text, digits: Text)
    requires AllBlank(blanks) && digits != [] && (blanks != [] || sign != ['+'])
    requires (sign == [] || sign == ['+'] || sign == ['-']) && (prefix == [] || prefix == "0x" || prefix == "0X")
    requires DigitValue(digits[0]) < BaseOf(prefix, digits, 0)
    ensures var s := blanks + (sign + (prefix + digits)); s != [] && s[0] != '!' && s[0] != '+' && !IsAlpha(s[0])
  {
    var s := blanks + (sign + (prefix + digits));
    if blanks != [] {
      assert s[0] == blanks[0];
    } else if sign != [] {
      assert s[0] == sign[0];
    } else if prefix != [] {
      assert s[0] == prefix[0];
    } else {
      assert s[0] == digits[0];
    }
  }

  lemma ReadsOne(env: Env, s: Text, m: Word)
    requires s != [] && s[0] != '!' && s[0] != '+' && !IsAlpha(s[0]) && Strtoul(s, 0, 0) == Scan(m, |s|)
    ensures Parse(env, s) == if (if env.cpus then m < env.conf else m in env.allowed) then Some({m}) else None
  {
    hide Strtoul, ParseFrom;
    assert s[0..] == s;
    OnlyNumber(env.(relative := false), s, m);
  }

  lemma OnlyNumber(env: Env, s: Text, m: Word)
    requires s != [] && !IsAlpha(s[0]) && Strtoul(s, 0, 0) == Scan(m, |s|) && !env.relative
    ensures ParseFrom(env, s, 0, {}) == if Accepts(env, m) then Some({m}) else None
  {
    hide Strtoul;
    assert s[0..][0] == s[0];
    assert {} + {m} == {m};
  }
}
