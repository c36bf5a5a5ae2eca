/**
  __numa_parse_nodestring, __numa_parse_cpustring and get_nr: the parsers that fill a mask while they scan.
 */
module ListParsers {
  import opened Words
  import opened CText
  import opened Bitmasks
  import opened NumberLists
  import opened Sets
  import opened Wrappers

  /** get_nr: a number, or the allowed number of that rank. */
  method GetNr(s: Text, pos: nat, allowed: Bitmask, relative: bool, ghost env: Env) returns (nr: nat, end: nat)
    requires pos <= |s| && allowed.Valid() && env.Valid()
    requires env.allowed == allowed.Bits() && env.size == allowed.size && env.relative == relative
    ensures end == Strtoul(s, pos, 0).end
    ensures end != pos ==> nr == Resolve(env, Strtoul(s, pos, 0).value)
  {
    hide Strtoul, Select;
    var scan := Strtoul(s, pos, 0);
    end := scan.end;
    if !relative || end == pos { return scan.value, end; }
    nr := NthMember(allowed, scan.value);
  }

  /** The search for the member of rank v; a v of 2^63 or more is negative as a long. */
  method NthMember(allowed: Bitmask, v: Word) returns (nr: nat)
    requires allowed.Valid() && forall a :: a in allowed.Bits() ==> a < allowed.size
    ensures nr == if v >= 0x8000_0000_0000_0000 then ULONG_MODULUS - 1 else Select(allowed.Bits(), allowed.size, v)
  {
    hide Select, Rank, InWords, Members;
    var left: int := if v < 0x8000_0000_0000_0000 then v else v - ULONG_MODULUS;
    var i := 0;
    SearchBegin(allowed.Bits(), allowed.size, v);
    hide Searched;
    while left >= 0 && i <= allowed.size
      invariant i <= allowed.size + 1
      invariant if v < 0x8000_0000_0000_0000
                then Searched(allowed.Bits(), allowed.size, v, i, left)
                else i == 0 && left < 0
      decreases allowed.size + 1 - i
    {
      SearchNext(allowed.Bits(), allowed.size, v, i, left);
      if allowed.IsBitSet(i) { left := left - 1; }
      i := i + 1;
    }
    if v < 0x8000_0000_0000_0000 { SearchEnd(allowed.Bits(), allowed.size, v, i, left); }
    nr := if i == 0 then ULONG_MODULUS - 1 else i - 1;
  }

  /** The loop of NthMember in front of i: the member is not found yet, or it is i - 1. */
  ghost predicate Searched(s: set<nat>, size: nat, v: nat, i: nat, left: int) {
    if left >= 0 then left == v - Rank(s, i) && Select(s, i, v) == i
    else 0 < i <= size && Select(s, size, v) == i - 1
  }

  lemma SearchBegin(s: set<nat>, size: nat, v: nat)
    ensures Searched(s, size, v, 0, v)
  {
    SelectBelow(s, 0, v);
  }

  lemma SearchNext(s: set<nat>, size: nat, v: nat, i: nat, left: int)
    requires left >= 0 && i <= size && Searched(s, size, v, i, left) && forall a :: a in s ==> a < size
    ensures Searched(s, size, v, i + 1, if i in s then left - 1 else left)
  {
    hide Select, Rank;
    SelectBelow(s, i + 1, v);
    if i in s && left == 0 { SelectMember(s, size, i); }
  }

  lemma SearchEnd(s: set<nat>, size: nat, v: nat, i: nat, left: int)
    requires left < 0 || i > size
    requires i <= size + 1 && Searched(s, size, v, i, left) && forall a :: a in s ==> a < size
    ensures i > 0 && Select(s, size, v) == i - 1
  {
    hide Select, Rank;
    SelectBelow(s, i, v);
  }

  /** How the selection grows with the part of the set that has been searched. */
  lemma SelectBelow(s: set<nat>, i: nat, nr: nat)
    ensures Select(s, i, nr) == i <==> Rank(s, i) <= nr
    ensures i > 0 ==> Rank(s, i) == Rank(s, i - 1) + if i - 1 in s then 1 else 0
    ensures Rank(s, 0) == 0
    ensures i > 0 && i - 1 !in s && Select(s, i, nr) == i ==> Select(s, i - 1, nr) == i - 1
  {
  }

  /** "all": the allowed mask is copied over the mask. */
  method SetToAllowed(mask: Bitmask, allowed: Bitmask)
    requires mask.Valid() && allowed.Valid() && mask.maskp != allowed.maskp
    requires TailZero(allowed.maskp[..], allowed.size) && forall i :: i in allowed.Bits() ==> i < mask.size
    modifies mask.maskp
    ensures mask.Bits() == allowed.Bits()
  {
    hide InWords;
    allowed.CopyTo(mask);
    assert Members(allowed.maskp[..], mask.size) == allowed.Bits() by {
      forall i: nat
        ensures i in Members(allowed.maskp[..], mask.size) <==> i in allowed.Bits()
      {
        assert i in allowed.Bits() ==> i < mask.size;
      }
    }
  }

  /** The allowed numbers from x to y. */
  method SetRange(mask: Bitmask, allowed: Bitmask, x: nat, y: nat)
    requires mask.Valid() && allowed.Valid() && mask.maskp != allowed.maskp
    requires forall i :: i in allowed.Bits() ==> i < mask.size
    modifies mask.maskp
    ensures mask.Bits() == old(mask.Bits()) + set i | i in allowed.Bits() && x <= i <= y
  {
    hide InWords, Members;
    var arg := x;
    while arg <= y
      invariant x <= arg && (arg <= y + 1 || arg == x)
      invariant mask.Bits() == old(mask.Bits()) + set i | i in allowed.Bits() && x <= i < arg
      decreases y + 1 - arg
    {
      ghost var before := mask.Bits();
      if allowed.IsBitSet(arg) { mask.SetBit(arg, true); }
      assert mask.Bits() == if arg in allowed.Bits() then before + {arg} else before;
      arg := arg + 1;
    }
  }

  /** "!": every bit below conf is turned over. */
  method Invert(mask: Bitmask, conf: nat)
    requires mask.Valid() && conf <= mask.size
    modifies mask.maskp
    ensures mask.Bits() == Flip(old(mask.Bits()), conf)
  {
    hide InWords, Members, Below;
    ghost var was := mask.Bits();
    FlipNext(was, 0);
    for i := 0 to conf
      invariant mask.Bits() == Flip(was, i)
    {
      FlipNext(was, i);
      if mask.IsBitSet(i) { mask.SetBit(i, false); } else { mask.SetBit(i, true); }
    }
  }

  lemma FlipNext(m: set<nat>, i: nat)
    ensures Flip(m, 0) == m
    ensures i in Flip(m, i) <==> i in m
    ensures Flip(m, i + 1) == if i in m then Flip(m, i) - {i} else Flip(m, i) + {i}
  {
    hide Below;
    var r := if i in m then Flip(m, i) - {i} else Flip(m, i) + {i};
    assert forall x :: x in Flip(m, i + 1) <==> if x in Below(i + 1) then x !in m else x in m;
    assert forall x :: x in Flip(m, i) <==> if x in Below(i) then x !in m else x in m;
    assert Flip(m, i + 1) == r;
  }

  /** One item of a cpu list that is not "all": false for an error return. */
  method CpuItem(s: Text, pos: nat, allowed: Bitmask, mask: Bitmask, relative: bool, conf: nat, ghost env: Env)
    returns (ok: bool, end: nat)
    requires pos <= |s| && s[pos..] != "all"
    requires mask.Valid() && allowed.Valid() && mask.maskp != allowed.maskp
    requires forall i :: i in allowed.Bits() ==> i < mask.size
    requires env.Valid() && env.cpus == true && env.allowed == allowed.Bits() &&
             env.size == allowed.size && env.relative == relative
    requires env.conf == conf <= mask.size
    modifies mask.maskp
    ensures pos <= end <= |s|
    ensures ParseFrom(env, s, pos, old(mask.Bits())) == if ok then ParseMore(env, s, end, mask.Bits()) else None
  {
    hide Strtoul, InWords, Members, Resolve, ParseMore;
    ghost var acc := mask.Bits();
    var arg;
    arg, end := GetNr(s, pos, allowed, relative, env);
    if end == pos { return false, end; }
    if arg >= conf { return false, end; }
    mask.SetBit(arg, true);
    if end < |s| && s[end] == '-' {
      var arg2, end2 := GetNr(s, end + 1, allowed, relative, env);
      if end2 == end + 1 { return false, end2; }
      if arg2 >= conf { return false, end2; }
      SetRange(mask, allowed, arg, arg2);
      assert mask.Bits() == acc + SpanSet(env, arg, arg2);
      return true, end2;
    }
    return true, end;
  }

  /** One item of a node list that is not "all" and names no device: false for an error return. */
  method NodeItem(s: Text, pos: nat, allowed: Bitmask, mask: Bitmask, relative: bool, ghost env: Env)
    returns (ok: bool, end: nat)
    requires pos <= |s| && s[pos..] != "all"
    requires mask.Valid() && allowed.Valid() && mask.maskp != allowed.maskp
    requires forall i :: i in allowed.Bits() ==> i < mask.size
    requires env.Valid() && env.cpus == false && env.allowed == allowed.Bits() &&
             env.size == allowed.size && env.relative == relative
    requires IsAlpha(At(s, pos)) ==> env.device(s[pos..]) == NotDevice
    modifies mask.maskp
    ensures pos <= end <= |s|
    ensures ParseFrom(env, s, pos, old(mask.Bits())) == if ok then ParseMore(env, s, end, mask.Bits()) else None
  {
    hide Strtoul, InWords, Members, Resolve, ParseMore;
    ghost var acc := mask.Bits();
    var arg;
    arg, end := GetNr(s, pos, allowed, relative, env);
    if end == pos { return false, end; }
    if arg >= allowed.size || !allowed.IsBitSet(arg) { return false, end; }
    mask.SetBit(arg, true);
    if end < |s| && s[end] == '-' {
      var arg2, end2 := GetNr(s, end + 1, allowed, relative, env);
      if end2 == end + 1 { return false, end2; }
      if arg2 >= allowed.size || !allowed.IsBitSet(arg2) { return false, end2; }
      SetRange(mask, allowed, arg, arg2);
      assert mask.Bits() == acc + SpanSet(env, arg, arg2);
      return true, end2;
    }
    return true, end;
  }

  /** sysfs_node_read: the nodes of a device are added to the mask. */
  method AddNodes(mask: Bitmask, nodes: set<nat>)
    requires mask.Valid() && forall i :: i in nodes ==> i < mask.size
    modifies mask.maskp
    ensures mask.Bits() == old(mask.Bits()) + nodes
  {
    hide InWords, Members;
    var left := nodes;
    while left != {}
      invariant left <= nodes && mask.Bits() == old(mask.Bits()) + (nodes - left)
      decreases left
    {
      var n :| n in left;
      mask.SetBit(n, true);
      left := left - {n};
    }
  }

  /** The do-while loop over the items of a cpu list; false for an error return. */
  method CpuItems(s: Text, pos0: nat, allowed: Bitmask, mask: Bitmask, relative: bool, conf: nat, ghost env: Env)
    returns (ok: bool)
    requires pos0 <= |s|
    requires mask.Valid() && allowed.Valid() && mask.maskp != allowed.maskp
    requires TailZero(allowed.maskp[..], allowed.size) && forall i :: i in allowed.Bits() ==> i < mask.size
    requires env.Valid() && env.cpus == true && env.allowed == allowed.Bits() &&
             env.size == allowed.size && env.relative == relative
    requires env.conf == conf <= mask.size
    modifies mask.maskp
    ensures ParseFrom(env, s, pos0, old(mask.Bits())) == if ok then Some(mask.Bits()) else None
  {
    hide Strtoul, InWords, Members;
    var pos := pos0;
    while true
      invariant pos <= |s| && allowed.maskp[..] == old(allowed.maskp[..])
      invariant ParseFrom(env, s, pos0, old(mask.Bits())) == ParseFrom(env, s, pos, mask.Bits())
      decreases |s| - pos
    {
      if s[pos..] == "all" {
        SetToAllowed(mask, allowed);
        return true;
      }
      hide ParseFrom;
      var end;
      ok, end := CpuItem(s, pos, allowed, mask, relative, conf, env);
      if !ok { return; }
      if end == |s| { return true; }
      if s[end] != ',' { return false; }
      pos := end + 1;
    }
  }

  /** The do-while loop over the items of a node list; false for an error return. */
  method NodeItems(s: Text, pos0: nat, allowed: Bitmask, mask: Bitmask, relative: bool, device: string -> Device,
                   ghost env: Env)
    returns (ok: bool)
    requires pos0 <= |s|
    requires mask.Valid() && allowed.Valid() && mask.maskp != allowed.maskp
    requires TailZero(allowed.maskp[..], allowed.size) && forall i :: i in allowed.Bits() ==> i < mask.size
    requires env.Valid() && env.cpus == false && env.allowed == allowed.Bits() &&
             env.size == allowed.size && env.relative == relative
    requires env.device == device
    requires forall name, i :: device(name).DeviceNodes? && i in device(name).nodes ==> i < mask.size
    modifies mask.maskp
    ensures ParseFrom(env, s, pos0, old(mask.Bits())) == if ok then Some(mask.Bits()) else None
  {
    hide Strtoul, InWords, Members;
    var pos := pos0;
    while true
      invariant pos <= |s| && allowed.maskp[..] == old(allowed.maskp[..])
      invariant ParseFrom(env, s, pos0, old(mask.Bits())) == ParseFrom(env, s, pos, mask.Bits())
      decreases |s| - pos
    {
      if s[pos..] == "all" {
        SetToAllowed(mask, allowed);
        return true;
      }
      if IsAlpha(At(s, pos)) {
        var d := device(s[pos..]);
        if d != NotDevice {
          if d.DeviceFails? { return false; }
          AddNodes(mask, d.nodes);
          return true;
        }
      }
      hide ParseFrom;
      var end;
      ok, end := NodeItem(s, pos, allowed, mask, relative, env);
      if !ok { return; }
      if end == |s| { return true; }
      if s[end] != ',' { return false; }
      pos := end + 1;
    }
  }

  /** The optional "!" and "+" in front of a list. */
  method ScanPrefix(s: Text) returns (invert: bool, relative: bool, pos: nat)
    requires s != []
    ensures invert == (s[0] == '!') && relative == (At(s, AfterBang(s)) == '+') && pos == AfterPlus(s)
  {
    invert, relative, pos := false, false, 0;
    if s[pos] == '!' { invert, pos := true, pos + 1; }
    if pos < |s| && s[pos] == '+' { relative, pos := true, pos + 1; }
  }

  /** What is left to do with the mask of the items. */
  method Finish(mask: Bitmask, invert: bool, conf: nat)
    requires mask.Valid() && conf <= mask.size
    modifies mask.maskp
    ensures mask.Bits() == Flipped(invert, old(mask.Bits()), conf)
  {
    hide InWords, Members, Flip;
    if invert { Invert(mask, conf); }
  }

  function Flipped(invert: bool, m: set<nat>, conf: nat): set<nat> {
    if invert then Flip(m, conf) else m
  }

  lemma Unfold(env: Env, s: Text)
    ensures s == [] ==> Parse(env, s) == Some({})
    ensures s != [] ==>
              var m := ParseFrom(env.(relative := At(s, AfterBang(s)) == '+'), s, AfterPlus(s), {});
              Parse(env, s) == if m.None? then None else Some(Flipped(s[0] == '!', m.value, env.conf))
  {
    hide ParseFrom, Flip;
  }

  /** __numa_parse_cpustring: null exactly when the list is refused, and otherwise a mask with its meaning. */
  method ParseCpuString(s: Text, allowed: Bitmask, size: nat, conf: nat, ghost env: Env)
    returns (mask: Bitmask?)
    requires size >= 1 && allowed.Valid() && conf <= size && conf <= allowed.size <= 0x7FFF_FFFF
    requires TailZero(allowed.maskp[..], allowed.size) && forall i :: i in allowed.Bits() ==> i < size
    requires env.cpus == true && env.allowed == allowed.Bits() && env.size == allowed.size && env.conf == conf
    ensures mask == null <==> Parse(env, s) == None
    ensures mask != null ==> fresh(mask) && fresh(mask.maskp) && mask.Valid() && mask.size == size &&
                              Parse(env, s) == Some(mask.Bits())
  {
    assert forall a :: a in allowed.Bits() ==> a < allowed.size;
    Unfold(env, s);
    hide ParseFrom, InWords, Members, Flipped, Parse, AfterPlus, AfterBang, TailZero;
    var m := new Bitmask(size);
    if s == [] { return m; }
    var invert, relative, pos := ScanPrefix(s);
    var ok := CpuItems(s, pos, allowed, m, relative, conf, env.(relative := relative));
    if !ok { return null; }
    Finish(m, invert, conf);
    return m;
  }

  /** __numa_parse_nodestring: null exactly when the list is refused, and otherwise a mask with its meaning. */
  method ParseNodeString(s: Text, allowed: Bitmask, size: nat, conf: nat, device: string -> Device, ghost env: Env)
    returns (mask: Bitmask?)
    requires size >= 1 && allowed.Valid() && conf <= size && allowed.size <= 0x7FFF_FFFF
    requires TailZero(allowed.maskp[..], allowed.size) && forall i :: i in allowed.Bits() ==> i < size
    requires env.cpus == false && env.allowed == allowed.Bits() && env.size == allowed.size && env.conf == conf
    requires env.device == device
    requires forall name, i :: device(name).DeviceNodes? && i in device(name).nodes ==> i < size
    ensures mask == null <==> Parse(env, s) == None
    ensures mask != null ==> fresh(mask) && fresh(mask.maskp) && mask.Valid() && mask.size == size &&
                              Parse(env, s) == Some(mask.Bits())
  {
    assert forall a :: a in allowed.Bits() ==> a < allowed.size;
    Unfold(env, s);
    hide ParseFrom, InWords, Members, Flipped, Parse, AfterPlus, AfterBang, TailZero;
    var m := new Bitmask(size);
    if s == [] { return m; }
    var invert, relative, pos := ScanPrefix(s);
    var ok := NodeItems(s, pos, allowed, m, relative, device, env.(relative := relative));
    if !ok { return null; }
    Finish(m, invert, conf);
    return m;
  }
}
