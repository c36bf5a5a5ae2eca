/**
  numa_run_on_node_mask, numa_get_run_node_mask and numa_node_of_cpu: node sets turned into cpu sets and back,
  a word at a time.
 */
module RunMasks {
  import opened Words
  import opened Bitmasks

  /** What numa_node_to_cpus yields for a node: an error, or the words of its cpu mask. */
  datatype NodeCpus = Failed | Cpus(words: seq<Word>)

  /** nodes[n] for every node up to numa_max_node; masks of cpuSize bits; conf configured cpus. */
  datatype System = System(nodes: seq<NodeCpus>, cpuSize: nat, conf: nat) {
    ghost predicate Valid() {
      && nodes != [] && cpuSize >= 1 && conf <= cpuSize
      && forall n :: 0 <= n < |nodes| && nodes[n].Cpus? ==> |nodes[n].words| == LongsPerBits(cpuSize)
    }

    /** Cpu c belongs to node n. */
    predicate Has(n: int, c: nat) {
      0 <= n < |nodes| && nodes[n].Cpus? && InWords(nodes[n].words, c)
    }

    /** No cpu belongs to two nodes, and every cpu of a node is configured. */
    ghost predicate Disjoint() {
      && (forall m, n, c: nat :: Has(m, c) && Has(n, c) ==> m == n)
      && (forall n, c: nat :: Has(n, c) ==> c < conf)
    }
  }

  /** The thread's cpu affinity, as the kernel keeps it; an empty mask is refused. */
  class Task {
    var affinity: seq<Word>

    constructor (words: seq<Word>)
      ensures affinity == words
    {
      affinity := words;
    }

    method SetAffinity(cpus: Bitmask) returns (err: int)
      modifies this
      ensures err == 0 || err == -1
      ensures err == 0 <==> exists k :: 0 <= k < cpus.maskp.Length && cpus.maskp[k] != 0
      ensures affinity == if err == 0 then cpus.maskp[..] else old(affinity)
    {
      for k := 0 to cpus.maskp.Length
        invariant affinity == old(affinity)
        invariant forall j :: 0 <= j < k ==> cpus.maskp[j] == 0
      {
        if cpus.maskp[k] != 0 {
          affinity := cpus.maskp[..];
          return 0;
        }
      }
      return -1;
    }
  }

  /** Some node of the set, below i, has the cpu. */
  ghost predicate Covered(sys: System, nodes: set<nat>, i: nat, c: nat) {
    exists n: nat :: n < i && n in nodes && sys.Has(n, c)
  }

  /** cpus |= nodecpus, word by word. */
  method OrInto(cpus: Bitmask, nodecpus: seq<Word>)
    requires cpus.Valid() && |nodecpus| == cpus.maskp.Length
    modifies cpus.maskp
    ensures forall c: nat :: InWords(cpus.maskp[..], c) <==> InWords(old(cpus.maskp[..]), c) || InWords(nodecpus, c)
  {
    hide Or, Bit;
    ghost var was := cpus.maskp[..];
    for k := 0 to cpus.maskp.Length
      invariant forall j :: 0 <= j < cpus.maskp.Length ==>
                  cpus.maskp[j] == if j < k then Or(was[j], nodecpus[j]) else was[j]
    {
      OrFits(was[k], nodecpus[k]);
      cpus.maskp[k] := Or(cpus.maskp[k], nodecpus[k]);
    }
    forall c: nat
      ensures InWords(cpus.maskp[..], c) <==> InWords(was, c) || InWords(nodecpus, c)
    {
      if c / 64 < |was| { OrBit(was[c / 64], nodecpus[c / 64], c % 64); }
    }
  }

  lemma OrFits(x: Word, y: Word)
    ensures Or(x, y) < ULONG_MODULUS
  {
    Pow2Constants();
    OrWidth(x, y, 64);
  }

  /** A word of the mask that is zero holds no members. */
  lemma ZeroWordEmpty(w: seq<Word>, i: nat)
    requires i / 64 < |w| && w[i / 64] == 0
    ensures !InWords(w, i)
  {
    ZeroBits(i % 64);
  }

  /** The cpus of the allowed nodes in bmp, as numa_run_on_node_mask collects them. */
  method CollectCpus(sys: System, bmp: Bitmask, allowed: Bitmask) returns (cpus: Bitmask)
    requires sys.Valid() && bmp.Valid() && allowed.Valid()
    ensures fresh(cpus) && fresh(cpus.maskp) && cpus.Valid() && cpus.size == sys.cpuSize
    ensures forall c: nat :: InWords(cpus.maskp[..], c) <==> Covered(sys, bmp.Bits() * allowed.Bits(), bmp.size, c)
  {
    hide InWords, Members, TailZero;
    cpus := new Bitmask(sys.cpuSize);
    ghost var nodes := bmp.Bits() * allowed.Bits();
    NothingCovered(sys, nodes, cpus.maskp[..]);
    for i := 0 to bmp.size
      invariant fresh(cpus.maskp) && bmp.Bits() * allowed.Bits() == nodes
      invariant forall c: nat :: InWords(cpus.maskp[..], c) <==> Covered(sys, nodes, i, c)
    {
      CoveredNext(sys, nodes, i);
      if bmp.maskp[i / 64] == 0 {
        NotAMember(bmp, i);
        continue;
      }
      if bmp.IsBitSet(i) {
        if !allowed.IsBitSet(i) { continue; }
        if i >= |sys.nodes| || sys.nodes[i].Failed? { continue; }
        OrInto(cpus, sys.nodes[i].words);
      }
    }
  }

  lemma NothingCovered(sys: System, nodes: set<nat>, w: seq<Word>)
    requires forall k :: 0 <= k < |w| ==> w[k] == 0
    ensures forall c: nat :: InWords(w, c) <==> Covered(sys, nodes, 0, c)
  {
    forall c: nat ensures !InWords(w, c) { ZeroWordsEmpty(w, c); }
  }

  lemma NotAMember(bmp: Bitmask, i: nat)
    requires bmp.Valid() && i < bmp.size && bmp.maskp[i / 64] == 0
    ensures i !in bmp.Bits()
  {
    ZeroWordEmpty(bmp.maskp[..], i);
  }

  lemma CoveredNext(sys: System, nodes: set<nat>, i: nat)
    ensures forall c: nat :: Covered(sys, nodes, i + 1, c) <==>
              Covered(sys, nodes, i, c) || (i in nodes && sys.Has(i, c))
  {
    hide InWords;
    forall c: nat
      ensures Covered(sys, nodes, i + 1, c) <==>
              Covered(sys, nodes, i, c) || (i in nodes && sys.Has(i, c))
    {
      if Covered(sys, nodes, i, c) {
        var n: nat :| n < i && n in nodes && sys.Has(n, c);
        assert n < i + 1;
      }
    }
  }

  /** numa_run_on_node_mask_v2 */
  method RunOnNodeMask(task: Task, sys: System, bmp: Bitmask, allowed: Bitmask) returns (err: int)
    requires sys.Valid() && bmp.Valid() && allowed.Valid()
    modifies task
    ensures err == 0 ==> |task.affinity| == LongsPerBits(sys.cpuSize)
    ensures err == 0 ==> forall c: nat :: InWords(task.affinity, c) <==>
              Covered(sys, bmp.Bits() * allowed.Bits(), bmp.size, c)
    ensures err == 0 <==> exists c: nat :: Covered(sys, bmp.Bits() * allowed.Bits(), bmp.size, c)
    ensures err != 0 ==> task.affinity == old(task.affinity)
  {
    hide InWords, Members, Covered;
    var cpus := CollectCpus(sys, bmp, allowed);
    err := task.SetAffinity(cpus);
    if err != 0 {
      forall c: nat ensures !InWords(cpus.maskp[..], c) { ZeroWordsEmpty(cpus.maskp[..], c); }
    } else {
      ghost var k :| 0 <= k < cpus.maskp.Length && cpus.maskp[k] != 0;
      ghost var c := NonzeroWord(cpus.maskp[..], k);
      assert Covered(sys, bmp.Bits() * allowed.Bits(), bmp.size, c);
    }
  }

  lemma NonzeroWord(w: seq<Word>, k: nat) returns (c: nat)
    requires k < |w| && w[k] != 0
    ensures InWords(w, c)
  {
    Pow2Constants();
    var b := NonzeroHasBit(w[k], 64);
    c := 64 * k + b;
    assert c / 64 == k && c % 64 == b;
  }

  /** Some cpu of the first k words is in both. */
  ghost predicate Meet(x: seq<Word>, y: seq<Word>, k: nat) {
    exists c: nat :: c < 64 * k && InWords(x, c) && InWords(y, c)
  }

  lemma MeetNext(x: seq<Word>, y: seq<Word>, k: nat)
    requires k < |x| && k < |y|
    ensures Meet(x, y, k + 1) <==> Meet(x, y, k) || And(x[k], y[k]) != 0
  {
    hide And, Bit;
    if And(x[k], y[k]) != 0 {
      Pow2Constants();
      var b := NonzeroHasBit(And(x[k], y[k]), 64);
      AndBit(x[k], y[k], b);
      var c := 64 * k + b;
      assert c / 64 == k && c % 64 == b;
      assert InWords(x, c) && InWords(y, c);
    } else if c: nat :| c < 64 * (k + 1) && InWords(x, c) && InWords(y, c) {
      if c >= 64 * k {
        assert c / 64 == k;
        AndBit(x[k], y[k], c % 64);
        ZeroBits(c % 64);
      } else {
        assert Meet(x, y, k);
      }
    }
    if Meet(x, y, k) {
      var c: nat :| c < 64 * k && InWords(x, c) && InWords(y, c);
      assert c < 64 * (k + 1);
    }
  }

  /** Whether a node's cpus meet the affinity, over the words of the configured cpus. */
  method Meets(nodecpus: seq<Word>, cpus: seq<Word>, ncpus: nat) returns (meet: bool)
    requires LongsPerBits(ncpus) <= |nodecpus| && LongsPerBits(ncpus) <= |cpus|
    ensures meet <==> Meet(nodecpus, cpus, LongsPerBits(ncpus))
  {
    hide And, Meet;
    meet := false;
    assert !Meet(nodecpus, cpus, 0) by { NoWords(nodecpus, cpus); }
    for k := 0 to LongsPerBits(ncpus)
      invariant meet <==> Meet(nodecpus, cpus, k)
    {
      MeetNext(nodecpus, cpus, k);
      if And(nodecpus[k], cpus[k]) != 0 { meet := true; }
    }
  }

  lemma NoWords(x: seq<Word>, y: seq<Word>)
    ensures !Meet(x, y, 0)
  {
  }

  /** Node i runs the thread: it is allowed, its cpus can be read, and one of them is in the affinity. */
  ghost predicate Runs(sys: System, allowed: set<nat>, affinity: seq<Word>, i: nat) {
    i < |sys.nodes| && i in allowed && sys.nodes[i].Cpus? && Meet(sys.nodes[i].words, affinity, LongsPerBits(sys.conf))
  }

  /** numa_get_run_node_mask_v2; the node set is returned in a mask of cpumask size. */
  method GetRunNodeMask(task: Task, sys: System, allowed: Bitmask) returns (bmp: Bitmask)
    requires sys.Valid() && allowed.Valid() && |task.affinity| == LongsPerBits(sys.cpuSize)
    ensures fresh(bmp) && fresh(bmp.maskp) && bmp.Valid() && bmp.size == sys.cpuSize
    ensures forall i: nat :: i in bmp.Bits() <==> i < bmp.size && Runs(sys, allowed.Bits(), task.affinity, i)
  {
    hide InWords, Members, TailZero, Meet;
    bmp := new Bitmask(sys.cpuSize);
    ghost var ok := allowed.Bits();
    for i := 0 to |sys.nodes|
      invariant fresh(bmp.maskp) && allowed.Bits() == ok
      invariant forall j: nat :: j in bmp.Bits() <==> j < i && j < bmp.size && Runs(sys, ok, task.affinity, j)
    {
      if !allowed.IsBitSet(i) { continue; }
      if sys.nodes[i].Failed? { continue; }
      var meet := Meets(sys.nodes[i].words, task.affinity, sys.conf);
      if meet { bmp.SetBit(i, true); }
    }
  }

  /** Running on a node set and asking back: with disjoint nodes the answer is exactly the allowed existing nodes of
      the set that have cpus, provided there is one and the cpumask has room for its number. */
  method RunThenGet(task: Task, sys: System, bmp: Bitmask, allowed: Bitmask) returns (err: int, back: Bitmask?)
    requires sys.Valid() && sys.Disjoint() && bmp.Valid() && allowed.Valid()
    modifies task
    ensures err == 0 <==> exists n, c: nat :: n in bmp.Bits() * allowed.Bits() && sys.Has(n, c)
    ensures err == 0 ==> back != null && fresh(back) && forall i: nat ::
              i in back.Bits() <==> i < sys.cpuSize && i in bmp.Bits() * allowed.Bits() &&
                                    exists c: nat :: sys.Has(i, c)
  {
    hide InWords, Members, Runs;
    ghost var nodes := bmp.Bits() * allowed.Bits();
    assert forall n :: n in nodes ==> n < bmp.size by { MembersBelow(bmp.maskp[..], bmp.size); }
    err := RunOnNodeMask(task, sys, bmp, allowed);
    assert bmp.Bits() * allowed.Bits() == nodes;
    CoveredMeaning(sys, nodes, bmp.size);
    if err != 0 {
      return err, null;
    }
    back := GetRunNodeMask(task, sys, allowed);
    forall i: nat | i in allowed.Bits()
      ensures Runs(sys, allowed.Bits(), task.affinity, i) <==> i in nodes && exists c: nat :: sys.Has(i, c)
    {
      RunsMeaning(sys, nodes, allowed.Bits(), task.affinity, bmp.size, i);
    }
    RunsAllowed(sys, allowed.Bits(), task.affinity);
  }

  lemma MembersBelow(w: seq<Word>, size: nat)
    ensures forall i :: i in Members(w, size) ==> i < size
  {
  }

  lemma RunsAllowed(sys: System, allowed: set<nat>, affinity: seq<Word>)
    ensures forall i: nat :: Runs(sys, allowed, affinity, i) ==> i in allowed
  {
  }

  lemma CoveredMeaning(sys: System, nodes: set<nat>, size: nat)
    requires forall n :: n in nodes ==> n < size
    ensures (exists c: nat :: Covered(sys, nodes, size, c)) <==> exists n, c: nat :: n in nodes && sys.Has(n, c)
  {
    hide InWords;
    if c: nat :| Covered(sys, nodes, size, c) {
      var n: nat :| n < size && n in nodes && sys.Has(n, c);
    }
    if n, c: nat :| n in nodes && sys.Has(n, c) {
      assert Covered(sys, nodes, size, c);
    }
  }

  /** A node meets the cpus of the covered nodes exactly when it is one of them and has cpus at all. */
  lemma RunsMeaning(sys: System, nodes: set<nat>, allowed: set<nat>, affinity: seq<Word>, size: nat, i: nat)
    requires sys.Valid() && sys.Disjoint() && i in allowed && nodes <= allowed && forall n :: n in nodes ==> n < size
    requires forall c: nat :: InWords(affinity, c) <==> Covered(sys, nodes, size, c)
    ensures Runs(sys, allowed, affinity, i) <==> i in nodes && exists c: nat :: sys.Has(i, c)
  {
    hide InWords;
    if i in nodes && exists c: nat :: sys.Has(i, c) {
      var c: nat :| sys.Has(i, c);
      assert Covered(sys, nodes, size, c);
      assert c < 64 * LongsPerBits(sys.conf);
      assert Meet(sys.nodes[i].words, affinity, LongsPerBits(sys.conf));
    }
    if Runs(sys, allowed, affinity, i) {
      var c: nat :| InWords(sys.nodes[i].words, c) && InWords(affinity, c);
      assert Covered(sys, nodes, size, c);
      var n: nat :| n < size && n in nodes && sys.Has(n, c);
      assert sys.Has(i, c);
    }
  }

  /** numa_node_of_cpu: the first node that has the cpu, so with disjoint nodes the one that has it. */
  method NodeOfCpu(sys: System, cpu: int) returns (r: int)
    requires sys.Valid()
    ensures r == -1 <==> !(0 <= cpu < sys.cpuSize) || forall n :: !sys.Has(n, cpu)
    ensures r != -1 ==> sys.Has(r, cpu) && forall n :: n < r ==> !sys.Has(n, cpu)
    ensures sys.Disjoint() ==> forall n :: 0 <= cpu < sys.cpuSize && sys.Has(n, cpu) ==> r == n
  {
    hide InWords, Members, TailZero, CopyWords;
    if cpu > sys.cpuSize { return -1; }
    var bmp := new Bitmask(sys.cpuSize);
    for node := 0 to |sys.nodes|
      invariant fresh(bmp.maskp)
      invariant 0 <= cpu < sys.cpuSize ==> forall n :: n < node ==> !sys.Has(n, cpu)
    {
      if sys.nodes[node].Failed? { continue; }
      bmp.Load(sys.nodes[node].words);
      if cpu >= 0 && bmp.IsBitSet(cpu) {
        MemberMeaning(bmp.maskp[..], bmp.size, cpu);
        assert sys.Has(node, cpu);
        return node;
      }
      if cpu >= 0 { MemberMeaning(bmp.maskp[..], bmp.size, cpu); }
    }
    return -1;
  }

  lemma MemberMeaning(w: seq<Word>, size: nat, i: nat)
    ensures i in Members(w, size) <==> i < size && InWords(w, i)
  {
  }
}
