/**
  numastat's table of category names: 151 slots, linear probing, no deletion, no check for duplicates.
 */
module HashTable {

  import opened Words

  const SIZE: nat := 151

  type Slot = i: nat | i < SIZE

  datatype Entry = Blank | Entry(name: string, index: int)

  type Log = seq<(string, int)>

  /** A char as x86 promotes it to int. */
  function CharToInt(c: char): int {
    var b := c as int % 256;
    if b < 128 then b else b - 256
  }

  /** h * 33 + c for each character, in 32-bit arithmetic. */
  function Hash(s: string, h: nat): nat
    decreases |s|
  {
    if s == [] then h else Hash(s[1..], (33 * h + CharToInt(s[0])) % UINT_MODULUS)
  }

  function HashIx(s: string): Slot {
    Hash(s, 17) % SIZE
  }

  /** The same as a number of any size: 17 and then the characters as digits in base 33. */
  function Polynomial(s: string): int {
    if s == [] then 17 else 33 * Polynomial(s[..|s| - 1]) + CharToInt(s[|s| - 1])
  }

  /** The place of a name is its polynomial, reduced by 2^32 and then by the table size. */
  lemma HashIsPolynomial(s: string)
    ensures HashIx(s) == Polynomial(s) % 0x1_0000_0000 % 151
  {
    hide Hash, Polynomial;
    assert s[..0] == [] && s[0..] == s;
    NoCharacters();
    HashFrom(s, 0, 17);
  }

  lemma NoCharacters()
    ensures Polynomial([]) == 17
  {
  }

  lemma {:induction false} HashFrom(s: string, k: nat, h: nat)
    requires k <= |s| && h == Polynomial(s[..k]) % UINT_MODULUS
    ensures Hash(s[k..], h) == Polynomial(s) % UINT_MODULUS
    decreases |s| - k
  {
    if k == |s| {
      assert s[..k] == s;
    } else {
      assert s[..k + 1][..k] == s[..k];
      assert s[k..][1..] == s[k + 1..];
      ModStep(Polynomial(s[..k]), CharToInt(s[k]));
      HashFrom(s, k + 1, (33 * h + CharToInt(s[k])) % UINT_MODULUS);
    }
  }

  lemma ModStep(p: int, c: int)
    ensures (33 * (p % UINT_MODULUS) + c) % UINT_MODULUS == (33 * p + c) % UINT_MODULUS
  {
    var q := p / UINT_MODULUS;
    assert 33 * p + c == (33 * (p % UINT_MODULUS) + c) + (33 * q) * UINT_MODULUS;
    AddMultiple(33 * (p % UINT_MODULUS) + c, 33 * q);
  }

  lemma AddMultiple(x: int, q: int)
    ensures (x + q * UINT_MODULUS) % UINT_MODULUS == x % UINT_MODULUS
  {
  }

  /** A character counts as a signed byte. */
  lemma SignedByte(c: char)
    ensures -128 <= CharToInt(c) < 128 && (c as int - CharToInt(c)) % 256 == 0
  {
  }

  method ComputeHashIx(s: string) returns (ix: Slot)
    ensures ix == HashIx(s)
  {
    var h: nat := 17;
    for k := 0 to |s|
      invariant Hash(s, 17) == Hash(s[k..], h)
    {
      h := (32 * h + h + CharToInt(s[k])) % UINT_MODULUS;
    }
    ix := h % SIZE;
  }

  /** What a lookup is to return: the index first inserted for the name. */
  function First(log: Log, s: string): int {
    if log == [] then -1 else if log[0].0 == s then log[0].1 else First(log[1..], s)
  }

  /** The slot d steps after h, around the end of the table. */
  function Step(h: Slot, d: nat): (p: Slot)
    requires d < SIZE
  {
    if h + d < SIZE then h + d else h + d - SIZE
  }

  lemma StepIsModular(h: Slot, d: nat)
    requires d < SIZE
    ensures Step(h, d) == (h + d) % 151
  {
  }

  function Distance(h: Slot, p: Slot): (d: nat)
    ensures d < SIZE && Step(h, d) == p
    ensures forall e: nat :: e < SIZE && Step(h, e) == p ==> e == d
  {
    if p >= h then p - h else p + SIZE - h
  }

  /** The table after a log of insertions; place[j] is the slot that insertion j went to. */
  ghost predicate Holds(slots: seq<Entry>, log: Log, place: seq<Slot>) {
    && |slots| == SIZE && |place| == |log|
    && (forall j :: 0 <= j < |log| ==> slots[place[j]] == Entry(log[j].0, log[j].1))
    && (forall i, j :: 0 <= i < j < |log| ==> place[i] != place[j])
    && (forall p :: 0 <= p < SIZE && slots[p] != Blank ==> p in place)
    && (forall j, d :: 0 <= j < |log| && 0 <= d < Distance(HashIx(log[j].0), place[j]) ==>
          Step(HashIx(log[j].0), d) in place[..j])
  }

  /** Fewer insertions than slots leave a blank slot. */
  lemma SomeBlank(slots: seq<Entry>, log: Log, place: seq<Slot>) returns (p: Slot)
    requires Holds(slots, log, place) && |log| < SIZE
    ensures slots[p] == Blank
  {
    if forall q: Slot :: slots[q] != Blank {
      forall q: Slot ensures q in place {}
      TooFew(place, SIZE);
      assert false;
    }
    p :| slots[p] == Blank;
  }

  lemma {:induction false} TooFew(place: seq<Slot>, n: nat)
    requires n <= SIZE && forall q: Slot :: q < n ==> q in place
    ensures |place| >= n
  {
    if n > 0 {
      var last: Slot := n - 1;
      assert last in place;
      var i :| 0 <= i < |place| && place[i] == last;
      var rest := place[..i] + place[i + 1..];
      forall q: Slot | q < n - 1
        ensures q in rest
      {
        assert q in place;
        var k :| 0 <= k < |place| && place[k] == q;
        assert rest[if k < i then k else k - 1] == q;
      }
      TooFew(rest, n - 1);
    }
  }

  /** The walk for s passes slots whose entries are not named s. */
  ghost predicate Passes(slots: seq<Entry>, s: string, d: nat) {
    |slots| == SIZE && d <= SIZE &&
    forall e :: 0 <= e < d ==> slots[Step(HashIx(s), e)] != Blank && slots[Step(HashIx(s), e)].name != s
  }

  /** An entry for s is not among the slots passed, and a slot on the way to it was filled before it. */
  lemma Ahead(slots: seq<Entry>, log: Log, place: seq<Slot>, s: string, d: nat, j: nat)
    requires Holds(slots, log, place) && Passes(slots, s, d) && d < SIZE && j < |log| && log[j].0 == s
    ensures place[j] == Step(HashIx(s), d) || Step(HashIx(s), d) in place[..j]
  {
    hide Hash, HashIx;
    var t := Distance(HashIx(s), place[j]);
    assert slots[place[j]].name == s;
    assert t >= d;
  }

  /** The first entry for s that a walk from its hash meets is the one inserted first. */
  lemma WalkMeetsFirst(slots: seq<Entry>, log: Log, place: seq<Slot>, s: string, d: nat)
    requires Holds(slots, log, place) && Passes(slots, s, d) && d < SIZE
    requires var x := slots[Step(HashIx(s), d)]; x == Blank || x.name == s
    ensures var x := slots[Step(HashIx(s), d)]; First(log, s) == if x == Blank then -1 else x.index
  {
    hide HashIx;
    var p := Step(HashIx(s), d);
    if slots[p] == Blank {
      forall j | 0 <= j < |log|
        ensures log[j].0 != s
      {
        if log[j].0 == s { Ahead(slots, log, place, s, d, j); }
      }
      NotThere(log, s);
    } else {
      var j :| 0 <= j < |log| && place[j] == p;
      forall i | 0 <= i < j
        ensures log[i].0 != s
      {
        if log[i].0 == s { Ahead(slots, log, place, s, d, i); }
      }
      FirstAt(log, s, j);
    }
  }

  lemma {:induction false} NotThere(log: Log, s: string)
    requires forall j :: 0 <= j < |log| ==> log[j].0 != s
    ensures First(log, s) == -1
  {
    if log != [] { NotThere(log[1..], s); }
  }

  lemma {:induction false} FirstAt(log: Log, s: string, j: nat)
    requires j < |log| && log[j].0 == s && forall i :: 0 <= i < j ==> log[i].0 != s
    ensures First(log, s) == log[j].1
  {
    if j > 0 { FirstAt(log[1..], s, j - 1); }
  }

  /** A lookup ends exactly when the name is in the table or the table is not full; with 151 entries the walk
      for a missing name goes round for ever. */
  lemma LookupEnds(slots: seq<Entry>, log: Log, place: seq<Slot>, s: string)
    requires Holds(slots, log, place)
    ensures !Passes(slots, s, SIZE) <==> |log| < SIZE || exists j :: 0 <= j < |log| && log[j].0 == s
  {
    hide HashIx;
    if |log| < SIZE {
      var p := SomeBlank(slots, log, place);
      assert slots[Step(HashIx(s), Distance(HashIx(s), p))] == Blank;
    } else if j :| 0 <= j < |log| && log[j].0 == s {
      assert slots[Step(HashIx(s), Distance(HashIx(s), place[j]))].name == s;
    } else {
      forall e | 0 <= e < SIZE
        ensures slots[Step(HashIx(s), e)] != Blank && slots[Step(HashIx(s), e)].name != s
      {
        AllFilled(place, Step(HashIx(s), e));
        var j :| 0 <= j < |log| && place[j] == Step(HashIx(s), e);
      }
    }
  }

  /** For example, 151 entries for one name fill the table, and a lookup of another name passes them all. */
  lemma FullTable()
    ensures var slots := seq(SIZE, _ => Entry("a", 0));
            var log := seq(SIZE, _ => ("a", 0));
            var place := seq(SIZE, k requires 0 <= k < SIZE => Step(HashIx("a"), k));
            Holds(slots, log, place) && Passes(slots, "b", SIZE)
  {
    hide Hash, HashIx;
    var place := seq(SIZE, k requires 0 <= k < SIZE => Step(HashIx("a"), k));
    forall p: Slot
      ensures p in place
    {
      assert place[Distance(HashIx("a"), p)] == p;
    }
    forall j, d | 0 <= j < SIZE && 0 <= d < Distance(HashIx("a"), place[j])
      ensures Step(HashIx("a"), d) in place[..j]
    {
      assert place[..j][d] == Step(HashIx("a"), d);
    }
  }

  function Slots(n: nat): (r: set<Slot>)
    requires n <= SIZE
    ensures |r| == n && forall q: Slot :: q in r <==> q < n
  {
    if n == 0 then {} else Slots(n - 1) + {n - 1}
  }

  function Used(place: seq<Slot>): set<Slot> {
    set q | q in place
  }

  /** As many distinct slots as there are slots are all of them. */
  lemma AllFilled(place: seq<Slot>, p: Slot)
    requires |place| >= SIZE && forall i, j :: 0 <= i < j < |place| ==> place[i] != place[j]
    ensures p in place
  {
    hide Slots;
    Distinct(place);
    if p !in place {
      assert Used(place) <= Slots(SIZE) - {p};
      Subset(Used(place), Slots(SIZE) - {p});
    }
  }

  lemma {:induction false} Distinct(place: seq<Slot>)
    requires forall i, j :: 0 <= i < j < |place| ==> place[i] != place[j]
    ensures |Used(place)| == |place|
  {
    if place != [] {
      var last, rest := place[|place| - 1], place[..|place| - 1];
      Distinct(rest);
      assert place == rest + [last];
      assert Used(place) == Used(rest) + {last};
    }
  }

  lemma {:induction false} Subset(a: set<Slot>, b: set<Slot>)
    requires a <= b
    ensures |a| <= |b|
  {
    if a != {} {
      var x :| x in a;
      Subset(a - {x}, b - {x});
    }
  }

  class Table {
    const slots: array<Entry>
    var collisions: nat
    ghost var log: Log
    ghost var place: seq<Slot>

    ghost predicate Valid()
      reads this, slots
    {
      Holds(slots[..], log, place)
    }

    /** init_hash_table */
    constructor ()
      ensures Valid() && fresh(slots) && log == [] && collisions == 0
    {
      slots := new Entry[SIZE](_ => Blank);
      collisions := 0;
      log := [];
      place := [];
    }

    /** hash_insert: a table that is not full takes one more entry, duplicates included. */
    method Insert(s: string, i: int) returns (ix: Slot)
      requires Valid() && |log| < SIZE
      modifies this, slots
      ensures Valid() && log == old(log) + [(s, i)] && place == old(place) + [ix]
      ensures collisions == old(collisions) + Distance(HashIx(s), ix)
    {
      hide HashIx;
      ghost var blank := SomeBlank(slots[..], log, place);
      ghost var d, h := 0, HashIx(s);
      ix := ComputeHashIx(s);
      while slots[ix] != Blank
        invariant Valid() && d < SIZE && ix == Step(h, d) && slots[blank] == Blank
        invariant forall e :: 0 <= e < d ==> slots[Step(h, e)] != Blank
        invariant log == old(log) && place == old(place) && collisions == old(collisions) + d
        invariant d <= Distance(h, blank)
        decreases SIZE - d
      {
        collisions := collisions + 1;
        ix := if ix + 1 >= SIZE then 0 else ix + 1;
        d := d + 1;
      }
      ghost var was := slots[..];
      slots[ix] := Entry(s, i);
      Extend(was, log, place, s, i, d);
      log := log + [(s, i)];
      place := place + [ix];
    }

    /** hash_lookup: it ends, and finds the index first inserted for the name. */
    method Lookup(s: string) returns (index: int)
      requires Valid() && |log| < SIZE
      ensures index == First(log, s)
    {
      assert slots.Length == SIZE;
      hide HashIx, Holds;
      ghost var blank := SomeBlank(slots[..], log, place);
      ghost var d, h := 0, HashIx(s);
      var ix := ComputeHashIx(s);
      while slots[ix] != Blank
        invariant d < SIZE && ix == Step(h, d) && Passes(slots[..], s, d)
        invariant d <= Distance(h, blank)
        decreases SIZE - d
      {
        if slots[ix].name == s {
          WalkMeetsFirst(slots[..], log, place, s, d);
          return slots[ix].index;
        }
        ix := if ix + 1 >= SIZE then 0 else ix + 1;
        d := d + 1;
      }
      WalkMeetsFirst(slots[..], log, place, s, d);
      return -1;
    }
  }

  /** The first blank slot on the walk takes the entry. */
  lemma Extend(slots: seq<Entry>, log: Log, place: seq<Slot>, s: string, i: int, d: nat)
    requires Holds(slots, log, place) && d < SIZE
    requires slots[Step(HashIx(s), d)] == Blank
    requires forall e :: 0 <= e < d ==> slots[Step(HashIx(s), e)] != Blank
    ensures var p := Step(HashIx(s), d);
            Distance(HashIx(s), p) == d && Holds(slots[p := Entry(s, i)], log + [(s, i)], place + [p])
  {
    hide HashIx;
    var p := Step(HashIx(s), d);
    var log', place', slots' := log + [(s, i)], place + [p], slots[p := Entry(s, i)];
    forall j, e | 0 <= j < |log'| && 0 <= e < Distance(HashIx(log'[j].0), place'[j])
      ensures Step(HashIx(log'[j].0), e) in place'[..j]
    {
      assert place'[..j] == place[..j];
      if j < |log| {
        assert Step(HashIx(log[j].0), e) in place[..j];
      } else {
        assert place[..j] == place;
      }
    }
  }

  /** Insert up to 150 entries into an empty table, then look a name up. */
  method InsertAllAndLookup(log: Log, s: string) returns (index: int)
    requires |log| < SIZE
    ensures index == First(log, s)
  {
    var t := new Table();
    for k := 0 to |log|
      invariant fresh(t) && fresh(t.slots) && t.Valid() && t.log == log[..k]
    {
      var _ := t.Insert(log[k].0, log[k].1);
    }
    assert log[..|log|] == log;
    index := t.Lookup(s);
  }
}
