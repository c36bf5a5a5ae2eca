/**
  numademo's pointer-chase benchmark: a list threaded through memory in random order, and the loop that walks it.
 */
module PointerChase {

  import opened Words

  /** A union node: first an unsigned index and a random value, then, written over them, a pointer. */
  datatype Node = Raw(nexti: nat, val: nat) | Next(next: int)

  /** The null pointer; other pointers are indices into the node array. */
  const NULL: int := -1

  /** order is a permutation of 0..n: qsort moves the node that was at order[i] to place i. Nothing else is
      known about it, since the comparison subtracts unsigned values and is no order. */
  ghost predicate IsPermutation(order: seq<nat>, n: nat) {
    && |order| == n
    && (forall i :: 0 <= i < n ==> order[i] < n)
    && (forall i, j :: 0 <= i < j < n ==> order[i] != order[j])
  }

  /** i + 1 as an unsigned int */
  function NextIndex(i: nat): nat {
    (i + 1) % UINT_MODULUS
  }

  /** The pointer that ends up in node i. */
  function Successor(order: seq<nat>, i: nat): (r: int)
    requires i < |order|
    ensures r == NULL || 0 <= r < |order|
  {
    var nexti := NextIndex(order[i]);
    if nexti >= |order| then NULL else nexti
  }

  /** A node holds the pointer to the node behind the one it was filled as, and the last of those the null pointer, as
      long as their numbers fit an unsigned int; then the numbers start again at 0. */
  lemma SuccessorMeans(order: seq<nat>, i: nat)
    requires IsPermutation(order, |order|) && i < |order|
    ensures |order| < 0x1_0000_0000 ==>
              Successor(order, i) == if order[i] == |order| - 1 then NULL else order[i] + 1
    ensures |order| >= 0x1_0000_0000 ==> Successor(order, i) == (order[i] + 1) % 0x1_0000_0000
  {
  }

  /** qsort */
  method Sort(mem: array<Node>, order: seq<nat>)
    requires IsPermutation(order, mem.Length)
    modifies mem
    ensures forall i :: 0 <= i < mem.Length ==> mem[i] == old(mem[order[i]])
  {
    var was := mem[..];
    for i := 0 to mem.Length
      invariant forall j :: 0 <= j < i ==> mem[j] == was[order[j]]
    {
      mem[i] := was[order[i]];
    }
  }

  /** The first loop: values and the indices of the nodes to come. */
  method Fill(mem: array<Node>, vals: seq<nat>)
    requires |vals| == mem.Length
    modifies mem
    ensures forall j :: 0 <= j < mem.Length ==> mem[j] == Raw(NextIndex(j), vals[j])
  {
    hide NextIndex;
    for i := 0 to mem.Length
      invariant forall j :: 0 <= j < i ==> mem[j] == Raw(NextIndex(j), vals[j])
    {
      NextIndexIs(i);
      mem[i] := Raw((i + 1) % UINT_MODULUS, vals[i]);
    }
  }

  lemma NextIndexIs(i: nat)
    ensures NextIndex(i) == (i + 1) % UINT_MODULUS
  {
  }

  /** The second loop: each index is overwritten by the pointer it stands for. */
  method Relink(mem: array<Node>, order: seq<nat>)
    requires IsPermutation(order, mem.Length)
    requires forall j :: 0 <= j < mem.Length ==> mem[j].Raw? && mem[j].nexti == NextIndex(order[j])
    modifies mem
    ensures forall i :: 0 <= i < mem.Length ==> mem[i] == Next(Successor(order, i))
  {
    assert |order| == mem.Length;
    hide NextIndex, IsPermutation;
    var nmemb := mem.Length;
    for i := 0 to nmemb
      invariant |order| == nmemb
      invariant forall j :: 0 <= j < i ==> mem[j] == Next(Successor(order, j))
      invariant forall j :: i <= j < nmemb ==> mem[j].Raw? && mem[j].nexti == NextIndex(order[j])
    {
      mem[i] := Next(if mem[i].nexti >= nmemb then NULL else mem[i].nexti);
    }
  }

  /** ptrchase_init: fill, sort, and turn the indices into pointers in place. */
  method Init(mem: array<Node>, vals: seq<nat>, order: seq<nat>)
    requires |vals| == mem.Length && IsPermutation(order, mem.Length)
    modifies mem
    ensures forall i :: 0 <= i < mem.Length ==> mem[i] == Next(Successor(order, i))
  {
    hide NextIndex, Successor;
    Fill(mem, vals);
    Sort(mem, order);
    Relink(mem, order);
  }

  /** The nodes visited: starting at node 0, each followed by its successor, none twice. */
  ghost predicate IsPath(order: seq<nat>, path: seq<nat>) {
    && path != [] && path[0] == 0
    && (forall k :: 0 <= k < |path| ==> path[k] < |order|)
    && (forall k :: 0 < k < |path| ==> Successor(order, path[k - 1]) == path[k])
    && (forall j, k :: 0 <= j < k < |path| ==> path[j] != path[k])
  }

  /** Two nodes never have the same successor, and node 0 is nobody's. */
  lemma SuccessorInjective(order: seq<nat>, i: nat, j: nat)
    requires IsPermutation(order, |order|) && |order| < UINT_MODULUS && i < |order| && j < |order|
    ensures Successor(order, i) != 0
    ensures Successor(order, i) == Successor(order, j) != NULL ==> i == j
  {
  }

  /** So the next node is a new one. */
  lemma NextIsNew(order: seq<nat>, path: seq<nat>)
    requires IsPermutation(order, |order|) && |order| < UINT_MODULUS && IsPath(order, path)
    requires Successor(order, path[|path| - 1]) != NULL
    ensures IsPath(order, path + [Successor(order, path[|path| - 1])])
  {
    hide Successor, IsPermutation;
    var cur := path[|path| - 1];
    forall j | 0 <= j < |path|
      ensures path[j] != Successor(order, cur)
    {
      SuccessorInjective(order, cur, cur);
      if j > 0 { SuccessorInjective(order, path[j - 1], cur); }
    }
  }

  /** Distinct numbers below n are at most n. */
  lemma {:induction false} DistinctBelow(path: seq<nat>, n: nat)
    requires forall k :: 0 <= k < |path| ==> path[k] < n
    requires forall j, k :: 0 <= j < k < |path| ==> path[j] != path[k]
    ensures |path| <= n
  {
    if n > 0 {
      var i := if n - 1 in path then IndexOf(path, n - 1) else |path|;
      if i < |path| {
        DistinctBelow(path[..i] + path[i + 1..], n - 1);
      } else {
        DistinctBelow(path, n - 1);
      }
    }
  }

  function IndexOf(path: seq<nat>, x: nat): (i: nat)
    requires x in path
    ensures i < |path| && path[i] == x
  {
    if path[0] == x then 0 else 1 + IndexOf(path[1..], x)
  }

  /** The chase reaches the null pointer, visits no node twice and so makes fewer than nmemb hops. */
  method Chase(mem: array<Node>, order: seq<nat>) returns (ptr: nat, hops: nat, ghost path: seq<nat>)
    requires 0 < mem.Length < UINT_MODULUS && IsPermutation(order, mem.Length)
    requires forall i :: 0 <= i < mem.Length ==> mem[i] == Next(Successor(order, i))
    ensures ptr < mem.Length && mem[ptr] == Next(NULL)
    ensures IsPath(order, path) && path[|path| - 1] == ptr && |path| == hops + 1
    ensures hops < mem.Length
  {
    ptr, hops, path := 0, 0, [0];
    DistinctBelow(path, |order|);
    while mem[ptr].next != NULL
      invariant IsPath(order, path) && path[|path| - 1] == ptr && |path| == hops + 1
      invariant |path| <= |order|
      decreases |order| - |path|
    {
      NextIsNew(order, path);
      path := path + [mem[ptr].next];
      ptr := mem[ptr].next;
      hops := hops + 1;
      DistinctBelow(path, |order|);
    }
  }

  /** With 2^32 nodes or more the index no longer fits an unsigned int: no node holds the null pointer, and
      with fewer at least one does. */
  lemma NullExists(order: seq<nat>)
    requires IsPermutation(order, |order|) && order != []
    ensures (exists i :: 0 <= i < |order| && Successor(order, i) == NULL) <==> |order| < UINT_MODULUS
  {
    if |order| < UINT_MODULUS {
      if forall i :: 0 <= i < |order| ==> order[i] != |order| - 1 {
        DistinctBelow(order, |order| - 1);
      } else {
        var i :| 0 <= i < |order| && order[i] == |order| - 1;
        assert Successor(order, i) == NULL;
      }
    }
  }
}
