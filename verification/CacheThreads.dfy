/**
  numa_node_to_cpus_v2 and numa_node_to_cpu_update as interleaved steps of any number of threads.
  One step is one access to shared memory: a load, a store, an atomic operation, or the copy of one word.
  Allocation succeeds and the topology is fixed and readable.
 */
module CacheThreads {
  import opened Words
  import opened Wrappers

  /** cpus[n] is the mask the kernel shows for node n; the cache array has one entry per possible node. */
  datatype Topology = Topology(cpus: seq<seq<Word>>, possible: nat, longs: nat) {
    predicate Has(node: int) {
      0 <= node < |cpus|
    }

    ghost predicate Valid() {
      && 1 <= |cpus| <= possible && longs >= 1
      && forall n :: 0 <= n < |cpus| ==> |cpus[n]| == longs
    }
  }

  /** Where a thread is; the comments name the access it makes next. */
  datatype Pc =
    | Idle
    | LoadArray(node: int)                                        // load node_cpu_mask_v2
    | AllocArray(node: int)                                       // calloc
    | PublishArray(node: int, arr: nat)                         // compare-exchange
    | FetchStale(node: int)                                       // range check, then fetch-and
    | TestEntry(node: int, update: bool)                          // load the entry, for the test
    | LoadEntry(node: int)                                        // load the entry, for the copy
    | CopyOut(node: int, mask: nat, buf: seq<Word>)               // load a word of the cached mask
    | ReadFile(node: int, update: bool)                           // allocate a mask, parse the file into it
    | TestAgain(node: int, update: bool, mask: nat, buf: seq<Word>)  // load the entry
    | LoadTarget(node: int, mask: nat, buf: seq<Word>)            // load the entry, for the refresh
    | CopyIn(node: int, mask: nat, target: nat, k: nat, buf: seq<Word>)  // store a word of the cached mask
    | FreeMask(node: int, mask: nat, buf: seq<Word>)              // free
    | StoreEntry(node: int, mask: nat, buf: seq<Word>)            // store the entry
    | Done(node: int, result: Option<seq<Word>>)

  /** The heap and the globals; published and public only record history: the arrays ever installed by the
      compare-exchange, and the masks ever stored in an entry with the entry's node. */
  datatype State = State(
    cache: Option<nat>,
    arrays: map<nat, seq<Option<nat>>>,
    masks: map<nat, seq<Word>>,
    stale: bool,
    threads: map<nat, Pc>,
    fault: bool,
    published: seq<nat>,
    public: map<nat, int>)

  datatype Action =
    | Call(t: nat, node: int)
    | Advance(t: nat, id: nat)   // id is the address an allocation returns
    | MarkStale

  predicate Enabled(s: State, a: Action) {
    match a
    case Call(t, _) => t !in s.threads || s.threads[t].Idle? || s.threads[t].Done?
    case Advance(t, id) =>
      && t in s.threads && !s.threads[t].Idle? && !s.threads[t].Done?
      && (s.threads[t].AllocArray? ==> id !in s.arrays)
      && (s.threads[t].ReadFile? ==> id !in s.masks)
    case MarkStale => true
  }

  function At(s: State, t: nat, pc: Pc): State {
    s.(threads := s.threads[t := pc])
  }

  /** The entry for a node, if the array pointer and the index are good. */
  function Entry(s: State, node: int): Option<Option<nat>> {
    if s.cache.Some? && s.cache.value in s.arrays && 0 <= node < |s.arrays[s.cache.value]|
    then Some(s.arrays[s.cache.value][node]) else None
  }

  function Next(topo: Topology, s: State, a: Action): State
    requires Enabled(s, a)
  {
    match a
    case MarkStale => s.(stale := true)
    case Call(t, node) => At(s, t, LoadArray(node))
    case Advance(t, id) =>
      match Access(topo, s, id, s.threads[t])
      case BadPointer => s.(fault := true)
      case Made(s', pc) => At(s', t, pc)
  }

  /** An access goes through a bad pointer, or changes the globals and moves its thread on. */
  datatype Outcome = BadPointer | Made(s: State, pc: Pc)

  function Access(topo: Topology, s: State, id: nat, pc: Pc): Outcome {
    match pc
    case Idle => Made(s, pc)
    case Done(_, _) => Made(s, pc)
    case LoadArray(node) => Made(s, if s.cache.None? then AllocArray(node) else FetchStale(node))
    case AllocArray(node) =>
      Made(s.(arrays := s.arrays[id := seq(topo.possible, _ => None)]), PublishArray(node, id))
    case PublishArray(node, arr) =>
      if s.cache.None? then Made(s.(cache := Some(arr), published := s.published + [arr]), FetchStale(node))
      else Made(s.(arrays := s.arrays - {arr}), FetchStale(node))
    case FetchStale(node) =>
      if !topo.Has(node) then Made(s, Done(node, None))
      else Made(s.(stale := false), TestEntry(node, s.stale))
    case TestEntry(node, update) =>
      if Entry(s, node).None? then BadPointer
      else Made(s, if Entry(s, node).value.Some? && !update then LoadEntry(node) else ReadFile(node, update))
    case LoadEntry(node) =>
      if Entry(s, node).None? || Entry(s, node).value.None? then BadPointer
      else Made(s, CopyOut(node, Entry(s, node).value.value, []))
    case CopyOut(node, mask, buf) =>
      if |buf| >= topo.longs then Made(s, Done(node, Some(buf)))
      else if mask !in s.masks || |buf| >= |s.masks[mask]| then BadPointer
      else Made(s, CopyOut(node, mask, buf + [s.masks[mask][|buf|]]))
    case ReadFile(node, update) =>
      if !topo.Has(node) then BadPointer
      else Made(s.(masks := s.masks[id := topo.cpus[node]]), TestAgain(node, update, id, topo.cpus[node]))
    case TestAgain(node, update, mask, buf) =>
      if Entry(s, node).None? then BadPointer
      else Made(s, if Entry(s, node).value.None? then StoreEntry(node, mask, buf)
                   else if update then LoadTarget(node, mask, buf) else FreeMask(node, mask, buf))
    case LoadTarget(node, mask, buf) =>
      if Entry(s, node).None? || Entry(s, node).value.None? then BadPointer
      else Made(s, CopyIn(node, mask, Entry(s, node).value.value, 0, buf))
    case CopyIn(node, mask, target, k, buf) =>
      if k >= topo.longs then Made(s, FreeMask(node, mask, buf))
      else if mask !in s.masks || target !in s.masks || k >= |s.masks[mask]| || k >= |s.masks[target]| then BadPointer
      else Made(s.(masks := s.masks[target := s.masks[target][k := s.masks[mask][k]]]),
                CopyIn(node, mask, target, k + 1, buf))
    case FreeMask(node, mask, buf) =>
      if mask !in s.masks then BadPointer
      else Made(s.(masks := s.masks - {mask}), Done(node, Some(buf)))
    case StoreEntry(node, mask, buf) =>
      if Entry(s, node).None? then BadPointer
      else Made(Stores(s, node, mask), Done(node, Some(buf)))
  }

  /** The mask is put into the entry for the node. */
  function Stores(s: State, node: int, mask: nat): State
    requires Entry(s, node).Some?
  {
    s.(arrays := s.arrays[s.cache.value := s.arrays[s.cache.value][node := Some(mask)]],
       public := s.public[mask := node])
  }

  // ----- the invariant -----

  /** The mask a thread has allocated and not yet given away. */
  function Owned(pc: Pc): Option<nat> {
    match pc
    case TestAgain(_, _, mask, _) => Some(mask)
    case LoadTarget(_, mask, _) => Some(mask)
    case CopyIn(_, mask, _, _, _) => Some(mask)
    case FreeMask(_, mask, _) => Some(mask)
    case StoreEntry(_, mask, _) => Some(mask)
    case _ => None
  }

  /** The array a thread has allocated and not yet published or freed. */
  function OwnedArray(pc: Pc): Option<nat> {
    if pc.PublishArray? then Some(pc.arr) else None
  }

  /** A mask that is, or was, in the entry for the node: allocated, and the true one. */
  ghost predicate IsPublic(topo: Topology, s: State, mask: nat, node: int) {
    && mask in s.public && s.public[mask] == node && topo.Has(node)
  }

  ghost predicate EntriesOk(topo: Topology, s: State) {
    s.cache.Some? ==>
      && s.cache.value in s.arrays && |s.arrays[s.cache.value]| == topo.possible
      && forall n :: 0 <= n < topo.possible && s.arrays[s.cache.value][n].Some? ==>
           IsPublic(topo, s, s.arrays[s.cache.value][n].value, n)
  }

  ghost predicate PublicOk(topo: Topology, s: State) {
    forall m :: m in s.public ==> m in s.masks && topo.Has(s.public[m]) && s.masks[m] == topo.cpus[s.public[m]]
  }

  ghost predicate HistoryOk(s: State) {
    s.published == if s.cache.None? then [] else [s.cache.value]
  }

  /** What holds of one thread. */
  ghost predicate PcOk(topo: Topology, s: State, pc: Pc)
    requires topo.Valid()
  {
    && (!pc.Idle? && !pc.LoadArray? && !pc.AllocArray? && !pc.PublishArray? ==> s.cache.Some?)
    && (match Owned(pc) case None => true case Some(m) => m in s.masks && m !in s.public)
    && match pc
       case Idle => true
       case LoadArray(_) => true
       case AllocArray(_) => true
       case PublishArray(_, arr) =>
         s.cache != Some(arr) && arr in s.arrays && |s.arrays[arr]| == topo.possible
         && forall n :: 0 <= n < topo.possible ==> s.arrays[arr][n].None?
       case FetchStale(_) => true
       case TestEntry(node, _) => topo.Has(node)
       case LoadEntry(node) => topo.Has(node) && Entry(s, node).Some? && Entry(s, node).value.Some?
       case CopyOut(node, mask, buf) =>
         IsPublic(topo, s, mask, node) && |buf| <= topo.longs && buf == topo.cpus[node][..|buf|]
       case ReadFile(node, _) => topo.Has(node)
       case TestAgain(node, _, mask, buf) => topo.Has(node) && buf == topo.cpus[node] == s.masks[mask]
       case LoadTarget(node, mask, buf) =>
         && topo.Has(node) && buf == topo.cpus[node] == s.masks[mask]
         && Entry(s, node).Some? && Entry(s, node).value.Some?
       case CopyIn(node, mask, target, k, buf) =>
         IsPublic(topo, s, target, node) && buf == topo.cpus[node] == s.masks[mask]
       case FreeMask(node, mask, buf) => topo.Has(node) && buf == topo.cpus[node]
       case StoreEntry(node, mask, buf) => topo.Has(node) && buf == topo.cpus[node] == s.masks[mask]
       case Done(node, result) =>
         if topo.Has(node) then result == Some(topo.cpus[node]) else result == None
  }

  /** No two threads own the same thing. */
  ghost predicate Disjoint(s: State) {
    forall t, u :: t in s.threads && u in s.threads && t != u ==>
      && (Owned(s.threads[t]).Some? ==> Owned(s.threads[t]) != Owned(s.threads[u]))
      && (OwnedArray(s.threads[t]).Some? ==> OwnedArray(s.threads[t]) != OwnedArray(s.threads[u]))
  }

  ghost predicate GlobalsOk(topo: Topology, s: State) {
    topo.Valid() && !s.fault && HistoryOk(s) && EntriesOk(topo, s) && PublicOk(topo, s)
  }

  ghost predicate Inv(topo: Topology, s: State) {
    && GlobalsOk(topo, s)
    && Disjoint(s)
    && forall t :: t in s.threads ==> PcOk(topo, s, s.threads[t])
  }

  // ----- one access -----

  /** What an access by a thread at pc leaves alone. */
  ghost predicate Keeps(s: State, s': State, pc: Pc) {
    && (s.cache.Some? ==> s'.cache == s.cache)
    && (forall n :: Entry(s, n).Some? && Entry(s, n).value.Some? ==> Entry(s', n).Some? && Entry(s', n).value.Some?)
    && (forall m :: m in s.public ==> m in s'.public && s'.public[m] == s.public[m])
    && (forall m :: m in s.masks && Owned(pc) != Some(m) ==>
          m in s'.masks && s'.masks[m] == s.masks[m] && (m in s'.public ==> m in s.public))
    && (forall b :: b in s.arrays && s.cache != Some(b) && OwnedArray(pc) != Some(b) ==>
          b in s'.arrays && s'.arrays[b] == s.arrays[b] && s'.cache != Some(b))
  }

  /** What another thread knows survives the access. */
  lemma OthersKeep(topo: Topology, s: State, s': State, t: nat, u: nat)
    requires t in s.threads && u in s.threads && t != u && topo.Valid()
    requires Disjoint(s) && PublicOk(topo, s) && Keeps(s, s', s.threads[t]) && PcOk(topo, s, s.threads[u])
    ensures PcOk(topo, s', s.threads[u])
  {
  }

  /** The access is made, and the globals stay good and so does the thread that made it. */
  ghost predicate Good(topo: Topology, s: State, pc: Pc, o: Outcome) {
    o.Made? && GlobalsOk(topo, o.s) && PcOk(topo, o.s, o.pc) && Keeps(s, o.s, pc)
  }

  lemma PointerSteps(topo: Topology, s: State, id: nat, pc: Pc)
    requires GlobalsOk(topo, s) && PcOk(topo, s, pc) && (pc.LoadArray? || pc.FetchStale?)
    ensures Good(topo, s, pc, Access(topo, s, id, pc))
  {
    hide EntriesOk, PublicOk;
    Unmoved(topo, s, Access(topo, s, id, pc).s, pc);
  }

  lemma AllocArrayStep(topo: Topology, s: State, id: nat, node: int)
    requires GlobalsOk(topo, s) && PcOk(topo, s, AllocArray(node)) && id !in s.arrays
    ensures Good(topo, s, AllocArray(node), Access(topo, s, id, AllocArray(node)))
  {
  }

  /** The array becomes the cache. */
  lemma InstallStep(topo: Topology, s: State, id: nat, node: int, arr: nat)
    requires GlobalsOk(topo, s) && PcOk(topo, s, PublishArray(node, arr)) && s.cache.None?
    ensures Good(topo, s, PublishArray(node, arr), Access(topo, s, id, PublishArray(node, arr)))
  {
    hide Topology.Valid;
  }

  /** Another thread was first, and the array is freed. */
  lemma DropArrayStep(topo: Topology, s: State, id: nat, node: int, arr: nat)
    requires GlobalsOk(topo, s) && PcOk(topo, s, PublishArray(node, arr)) && s.cache.Some?
    ensures Good(topo, s, PublishArray(node, arr), Access(topo, s, id, PublishArray(node, arr)))
  {
    hide Topology.Valid;
  }

  /** The entry of an existing node can be loaded. */
  lemma EntryThere(topo: Topology, s: State, node: int)
    requires GlobalsOk(topo, s) && s.cache.Some? && topo.Has(node)
    ensures Entry(s, node).Some?
    ensures Entry(s, node).value.Some? ==> IsPublic(topo, s, Entry(s, node).value.value, node)
  {
  }

  /** Loading or testing something changes nothing for anyone. */
  lemma Unmoved(topo: Topology, s: State, s': State, pc: Pc)
    requires GlobalsOk(topo, s) && s' == s.(stale := s'.stale)
    ensures GlobalsOk(topo, s') && Keeps(s, s', pc)
  {
    hide Topology.Valid;
  }

  lemma FirstEntrySteps(topo: Topology, s: State, id: nat, pc: Pc)
    requires GlobalsOk(topo, s) && PcOk(topo, s, pc) && (pc.TestEntry? || pc.LoadEntry?)
    ensures Good(topo, s, pc, Access(topo, s, id, pc))
  {
    EntryThere(topo, s, pc.node);
    hide GlobalsOk, Keeps, Entry;
    Unmoved(topo, s, s, pc);
  }

  lemma SecondEntrySteps(topo: Topology, s: State, id: nat, pc: Pc)
    requires GlobalsOk(topo, s) && PcOk(topo, s, pc) && (pc.TestAgain? || pc.LoadTarget?)
    ensures Good(topo, s, pc, Access(topo, s, id, pc))
  {
    EntryThere(topo, s, pc.node);
    hide GlobalsOk, Keeps, Entry;
    Unmoved(topo, s, s, pc);
  }

  lemma CopyOutStep(topo: Topology, s: State, id: nat, node: int, mask: nat, buf: seq<Word>)
    requires GlobalsOk(topo, s) && PcOk(topo, s, CopyOut(node, mask, buf))
    ensures Good(topo, s, CopyOut(node, mask, buf), Access(topo, s, id, CopyOut(node, mask, buf)))
  {
    var cpus := topo.cpus[node];
    assert cpus[..|cpus|] == cpus;
    Unmoved(topo, s, s, CopyOut(node, mask, buf));
    hide Keeps, EntriesOk, HistoryOk;
  }

  lemma ReadFileStep(topo: Topology, s: State, id: nat, node: int, update: bool)
    requires GlobalsOk(topo, s) && PcOk(topo, s, ReadFile(node, update)) && id !in s.masks
    ensures Good(topo, s, ReadFile(node, update), Access(topo, s, id, ReadFile(node, update)))
  {
  }

  lemma CopyInStep(topo: Topology, s: State, id: nat, pc: Pc)
    requires GlobalsOk(topo, s) && PcOk(topo, s, pc) && pc.CopyIn?
    ensures Good(topo, s, pc, Access(topo, s, id, pc))
  {
    Unmoved(topo, s, s, pc);
    hide Keeps, EntriesOk, HistoryOk;
    if pc.k < topo.longs {
      var word := s.masks[pc.mask][pc.k];
      assert s.masks[pc.target][pc.k := word] == s.masks[pc.target];
      assert s.masks[pc.target := s.masks[pc.target][pc.k := word]] == s.masks;
    }
  }

  lemma FreeMaskStep(topo: Topology, s: State, id: nat, node: int, mask: nat, buf: seq<Word>)
    requires GlobalsOk(topo, s) && PcOk(topo, s, FreeMask(node, mask, buf))
    ensures Good(topo, s, FreeMask(node, mask, buf), Access(topo, s, id, FreeMask(node, mask, buf)))
  {
  }

  lemma StoreEntryStep(topo: Topology, s: State, id: nat, node: int, mask: nat, buf: seq<Word>)
    requires GlobalsOk(topo, s) && PcOk(topo, s, StoreEntry(node, mask, buf))
    ensures Good(topo, s, StoreEntry(node, mask, buf), Access(topo, s, id, StoreEntry(node, mask, buf)))
  {
    EntryThere(topo, s, node);
    hide GlobalsOk, Keeps, Entry;
    Stored(topo, s, Stores(s, node, mask), node, mask);
    StoredKeeps(topo, s, Stores(s, node, mask), StoreEntry(node, mask, buf));
  }

  /** A true mask that no one knew is stored in the entry of its node. */
  lemma Stored(topo: Topology, s: State, s': State, node: int, mask: nat)
    requires GlobalsOk(topo, s) && topo.Has(node) && Entry(s, node).Some? && s' == Stores(s, node, mask)
    requires mask in s.masks && mask !in s.public && s.masks[mask] == topo.cpus[node]
    ensures GlobalsOk(topo, s')
  {
    hide Topology.Valid;
  }

  lemma StoredKeeps(topo: Topology, s: State, s': State, pc: Pc)
    requires pc.StoreEntry? && Entry(s, pc.node).Some? && s' == Stores(s, pc.node, pc.mask)
    requires pc.mask !in s.public
    ensures Keeps(s, s', pc)
  {
  }

  lemma AccessGood(topo: Topology, s: State, id: nat, pc: Pc)
    requires GlobalsOk(topo, s) && PcOk(topo, s, pc) && !pc.Idle? && !pc.Done?
    requires (pc.AllocArray? ==> id !in s.arrays) && (pc.ReadFile? ==> id !in s.masks)
    ensures Good(topo, s, pc, Access(topo, s, id, pc))
  {
    hide GlobalsOk, PcOk, Good, Access;
    match pc
    case LoadArray(_) => PointerSteps(topo, s, id, pc);
    case FetchStale(_) => PointerSteps(topo, s, id, pc);
    case AllocArray(node) => AllocArrayStep(topo, s, id, node);
    case PublishArray(node, arr) =>
      if s.cache.None? { InstallStep(topo, s, id, node, arr); } else { DropArrayStep(topo, s, id, node, arr); }
    case TestEntry(_, _) => FirstEntrySteps(topo, s, id, pc);
    case LoadEntry(_) => FirstEntrySteps(topo, s, id, pc);
    case TestAgain(_, _, _, _) => SecondEntrySteps(topo, s, id, pc);
    case LoadTarget(_, _, _) => SecondEntrySteps(topo, s, id, pc);
    case CopyOut(node, mask, buf) => CopyOutStep(topo, s, id, node, mask, buf);
    case ReadFile(node, update) => ReadFileStep(topo, s, id, node, update);
    case CopyIn(_, _, _, _, _) => CopyInStep(topo, s, id, pc);
    case FreeMask(node, mask, buf) => FreeMaskStep(topo, s, id, node, mask, buf);
    case StoreEntry(node, mask, buf) => StoreEntryStep(topo, s, id, node, mask, buf);
  }

  /** The same with the thread moved on. */
  lemma AdvanceStep(topo: Topology, s: State, t: nat, id: nat)
    requires Inv(topo, s) && Enabled(s, Advance(t, id))
    ensures Access(topo, s, id, s.threads[t]).Made?
    ensures var s' := Next(topo, s, Advance(t, id));
            t in s'.threads && GlobalsOk(topo, s') && PcOk(topo, s', s'.threads[t]) && Keeps(s, s', s.threads[t])
  {
    hide GlobalsOk, PcOk, Keeps, Access, Disjoint;
    AccessGood(topo, s, id, s.threads[t]);
    var o := Access(topo, s, id, s.threads[t]);
    MovedOn(topo, s, o.s, At(o.s, t, o.pc), s.threads[t]);
  }

  /** Nothing that is kept or good depends on where threads are. */
  lemma MovedOn(topo: Topology, s: State, o: State, s': State, pc: Pc)
    requires GlobalsOk(topo, o) && Keeps(s, o, pc) && s' == o.(threads := s'.threads)
    ensures GlobalsOk(topo, s') && Keeps(s, s', pc)
    ensures forall q :: PcOk(topo, o, q) ==> PcOk(topo, s', q)
  {
    GlobalsOnly(topo, o, s');
    assert forall n :: Entry(s', n) == Entry(o, n);
  }

  // ----- every action keeps the invariant -----

  /** What a thread owns after its access it owned before, or it has just been allocated. */
  ghost predicate OwnsNoMore(s: State, pc: Pc, pc': Pc) {
    && (Owned(pc').Some? ==> Owned(pc') == Owned(pc) || Owned(pc').value !in s.masks)
    && (OwnedArray(pc').Some? ==> OwnedArray(pc') == OwnedArray(pc) || OwnedArray(pc').value !in s.arrays)
  }

  lemma StoresThreads(s: State)
    ensures forall node: int, mask: nat :: Entry(s, node).Some? ==> Stores(s, node, mask).threads == s.threads
  {
  }

  lemma OwnedAfterAccess(topo: Topology, s: State, t: nat, id: nat, pc: Pc)
    requires Enabled(s, Advance(t, id)) && s.threads[t] == pc && Access(topo, s, id, pc).Made?
    ensures Access(topo, s, id, pc).s.threads == s.threads
    ensures OwnsNoMore(s, pc, Access(topo, s, id, pc).pc)
  {
    hide Entry, Topology.Has, Stores;
    StoresThreads(s);
  }

  lemma OwnedAfter(topo: Topology, s: State, t: nat, id: nat)
    requires Inv(topo, s) && Enabled(s, Advance(t, id))
    ensures var s' := Next(topo, s, Advance(t, id));
            && s'.threads.Keys == s.threads.Keys
            && (forall u :: u in s.threads && u != t ==> s'.threads[u] == s.threads[u])
            && OwnsNoMore(s, s.threads[t], s'.threads[t])
  {
    hide Access, Inv, OwnsNoMore, GlobalsOk, PcOk, Keeps;
    AdvanceStep(topo, s, t, id);
    OwnedAfterAccess(topo, s, t, id, s.threads[t]);
  }

  lemma DisjointAfter(topo: Topology, s: State, t: nat, id: nat)
    requires Inv(topo, s) && Enabled(s, Advance(t, id))
    ensures Disjoint(Next(topo, s, Advance(t, id)))
  {
    hide Next, GlobalsOk, PcOk, Disjoint, OwnsNoMore;
    OwnedAfter(topo, s, t, id);
    assert topo.Valid() by { TopologyOk(topo, s); }
    forall u | u in s.threads
      ensures Allocated(s, s.threads[u])
    {
      OwnedIsAllocated(topo, s, s.threads[u]);
    }
    DisjointStays(s, Next(topo, s, Advance(t, id)), t);
  }

  lemma TopologyOk(topo: Topology, s: State)
    requires GlobalsOk(topo, s)
    ensures topo.Valid()
  {
  }

  /** What a thread owns is allocated. */
  ghost predicate Allocated(s: State, pc: Pc) {
    && (Owned(pc).Some? ==> Owned(pc).value in s.masks)
    && (OwnedArray(pc).Some? ==> OwnedArray(pc).value in s.arrays)
  }

  lemma OwnedIsAllocated(topo: Topology, s: State, pc: Pc)
    requires topo.Valid() && PcOk(topo, s, pc)
    ensures Allocated(s, pc)
  {
  }

  lemma DisjointStays(s: State, s': State, t: nat)
    requires Disjoint(s) && t in s.threads && forall u :: u in s.threads ==> Allocated(s, s.threads[u])
    requires s'.threads.Keys == s.threads.Keys && OwnsNoMore(s, s.threads[t], s'.threads[t])
    requires forall u :: u in s.threads && u != t ==> s'.threads[u] == s.threads[u]
    ensures Disjoint(s')
  {
    hide Owned, OwnedArray;
  }

  lemma InvNext(topo: Topology, s: State, a: Action)
    requires Inv(topo, s) && Enabled(s, a)
    ensures Inv(topo, Next(topo, s, a))
  {
    var s' := Next(topo, s, a);
    match a
    case MarkStale =>
      hide EntriesOk, PublicOk, HistoryOk, Disjoint;
      GlobalsOnly(topo, s, s');
    case Call(t, node) =>
      hide EntriesOk, PublicOk, HistoryOk, Disjoint;
      GlobalsOnly(topo, s, s');
      CallDisjoint(s, t, node);
    case Advance(t, id) =>
      hide Next, EntriesOk, PublicOk, HistoryOk, PcOk, Disjoint, Keeps, Access;
      AdvanceStep(topo, s, t, id);
      DisjointAfter(topo, s, t, id);
      OwnedAfter(topo, s, t, id);
      forall u | u in s'.threads
        ensures PcOk(topo, s', s'.threads[u])
      {
        if u != t { OthersKeep(topo, s, s', t, u); }
      }
  }

  /** Actions that touch neither the heap nor the array pointer. */
  lemma GlobalsOnly(topo: Topology, s: State, s': State)
    requires topo.Valid()
    requires s' == s.(stale := s'.stale, threads := s'.threads)
    ensures EntriesOk(topo, s) ==> EntriesOk(topo, s')
    ensures PublicOk(topo, s) ==> PublicOk(topo, s')
    ensures HistoryOk(s) ==> HistoryOk(s')
    ensures s'.threads == s.threads && Disjoint(s) ==> Disjoint(s')
    ensures forall pc :: PcOk(topo, s, pc) ==> PcOk(topo, s', pc)
  {
    forall pc | PcOk(topo, s, pc)
      ensures PcOk(topo, s', pc)
    {
      assert forall n :: Entry(s', n) == Entry(s, n);
    }
  }

  lemma CallDisjoint(s: State, t: nat, node: int)
    requires Disjoint(s)
    ensures Disjoint(At(s, t, LoadArray(node)))
  {
  }

  // ----- runs -----

  /** No cache yet and no query under way; the heap may hold anything. */
  ghost predicate Init(s: State) {
    && s.cache.None? && !s.fault && s.published == [] && s.public == map[]
    && forall t :: t in s.threads ==> s.threads[t].Idle?
  }

  ghost predicate Run(topo: Topology, ss: seq<State>, acts: seq<Action>) {
    && topo.Valid() && |ss| == |acts| + 1 && Init(ss[0])
    && forall i :: 0 <= i < |acts| ==> Enabled(ss[i], acts[i]) && ss[i + 1] == Next(topo, ss[i], acts[i])
  }

  lemma {:induction false} RunInv(topo: Topology, ss: seq<State>, acts: seq<Action>, i: nat)
    requires Run(topo, ss, acts) && i < |ss|
    ensures Inv(topo, ss[i])
  {
    if i > 0 {
      hide Inv, Next;
      RunInv(topo, ss, acts, i - 1);
      InvNext(topo, ss[i - 1], acts[i - 1]);
    }
  }

  /** What lasts: the installed array, its filled entries being filled, and every mask that was ever in it. */
  ghost predicate Lasts(s: State, s': State) {
    && (s.cache.Some? ==> s'.cache == s.cache && s.cache.value in s'.arrays)
    && (forall n :: Entry(s, n).Some? && Entry(s, n).value.Some? ==> Entry(s', n).Some? && Entry(s', n).value.Some?)
    && (forall m :: m in s.public ==> m in s'.public && m in s.masks && m in s'.masks && s'.masks[m] == s.masks[m])
  }

  lemma LastsNext(topo: Topology, s: State, a: Action)
    requires Inv(topo, s) && Enabled(s, a)
    ensures Lasts(s, Next(topo, s, a))
  {
    InvNext(topo, s, a);
    if a.Advance? {
      hide Next;
      AdvanceStep(topo, s, a.t, a.id);
    }
  }

  lemma {:induction false} RunLasts(topo: Topology, ss: seq<State>, acts: seq<Action>, i: nat, j: nat)
    requires Run(topo, ss, acts) && i <= j < |ss|
    ensures Lasts(ss[i], ss[j])
    decreases j
  {
    hide Next;
    RunInv(topo, ss, acts, i);
    if i < j {
      RunLasts(topo, ss, acts, i, j - 1);
      RunInv(topo, ss, acts, j - 1);
      LastsNext(topo, ss[j - 1], acts[j - 1]);
    }
  }

  /** The cache is safe in every interleaving. No access ever goes through a bad or freed pointer; at most one
      array is ever installed, and it stays; a mask that is in the array at any time is allocated and true then
      and for ever after; and every finished query has the true CPU set of its node, or an error if the node is
      out of range. */
  lemma CacheSafety(topo: Topology, ss: seq<State>, acts: seq<Action>, i: nat, j: nat)
    requires Run(topo, ss, acts) && i <= j < |ss|
    ensures !ss[i].fault
    ensures |ss[i].published| <= 1 &&
            (ss[i].cache.Some? ==> ss[j].cache == ss[i].cache && ss[j].published == [ss[i].cache.value])
    ensures forall n :: Entry(ss[i], n).Some? && Entry(ss[i], n).value.Some? ==>
              var m := Entry(ss[i], n).value.value;
              topo.Has(n) && m in ss[j].masks && ss[j].masks[m] == topo.cpus[n]
    ensures forall t :: t in ss[i].threads && ss[i].threads[t].Done? ==>
              |ss[i].published| == 1 &&
              ss[i].threads[t].result ==
                if topo.Has(ss[i].threads[t].node) then Some(topo.cpus[ss[i].threads[t].node]) else None
  {
    hide Next, Run, Disjoint;
    RunInv(topo, ss, acts, i);
    RunInv(topo, ss, acts, j);
    RunLasts(topo, ss, acts, i, j);
    forall t | t in ss[i].threads && ss[i].threads[t].Done?
      ensures |ss[i].published| == 1
      ensures ss[i].threads[t].result ==
                if topo.Has(ss[i].threads[t].node) then Some(topo.cpus[ss[i].threads[t].node]) else None
    {
      assert PcOk(topo, ss[i], ss[i].threads[t]);
    }
  }

  // ----- cached nodes are not read again -----

  /** A thread that is on its way to the file of the node, or back from it. */
  predicate Reads(pc: Pc, node: int) {
    match pc
    case TestEntry(n, update) => n == node && update
    case ReadFile(n, _) => n == node
    case TestAgain(n, _, _, _) => n == node
    case LoadTarget(n, _, _) => n == node
    case CopyIn(n, _, _, _, _) => n == node
    case FreeMask(n, _, _) => n == node
    case StoreEntry(n, _, _) => n == node
    case _ => false
  }

  /** The node's entry is filled, no mark is up, and no thread is reading the node's file. */
  ghost predicate Cached(s: State, node: int) {
    && !s.stale && Entry(s, node).Some? && Entry(s, node).value.Some?
    && forall t :: t in s.threads ==> !Reads(s.threads[t], node)
  }

  /** Where an access takes a thread while the node is cached. */
  lemma StaysAway(topo: Topology, s: State, id: nat, pc: Pc, node: int)
    requires !s.stale && Entry(s, node).Some? && Entry(s, node).value.Some? && !Reads(pc, node)
    requires Access(topo, s, id, pc).Made?
    ensures !Reads(Access(topo, s, id, pc).pc, node) && !Access(topo, s, id, pc).s.stale
  {
    hide Entry, Topology.Has, Stores;
    StoresStale(s);
  }

  lemma StoresStale(s: State)
    ensures forall node: int, mask: nat :: Entry(s, node).Some? ==> Stores(s, node, mask).stale == s.stale
  {
  }

  lemma CachedNext(topo: Topology, s: State, a: Action, node: int)
    requires Inv(topo, s) && Enabled(s, a) && Cached(s, node) && a != MarkStale
    ensures Cached(Next(topo, s, a), node)
  {
    hide Inv, Access, Entry, Reads, Topology.Has;
    match a
    case Call(t, n) =>
      SameEntry(s, At(s, t, LoadArray(n)), node);
      CallReadsNothing(n, node);
    case Advance(t, id) =>
      AdvanceStep(topo, s, t, id);
      EntryKept(s, Next(topo, s, a), s.threads[t], node);
      StaysAway(topo, s, id, s.threads[t], node);
      OwnedAfter(topo, s, t, id);
  }

  lemma CallReadsNothing(n: int, node: int)
    ensures !Reads(LoadArray(n), node)
  {
  }

  lemma SameEntry(s: State, s': State, node: int)
    requires s'.cache == s.cache && s'.arrays == s.arrays
    ensures Entry(s', node) == Entry(s, node)
  {
  }

  lemma EntryKept(s: State, s': State, pc: Pc, node: int)
    requires Keeps(s, s', pc) && Entry(s, node).Some? && Entry(s, node).value.Some?
    ensures Entry(s', node).Some? && Entry(s', node).value.Some?
  {
    hide Entry, Owned, OwnedArray;
  }

  lemma RunStep(topo: Topology, ss: seq<State>, acts: seq<Action>, k: nat)
    requires Run(topo, ss, acts) && k < |acts|
    ensures |ss| == |acts| + 1 && Enabled(ss[k], acts[k]) && ss[k + 1] == Next(topo, ss[k], acts[k])
  {
    hide Next, Enabled;
  }

  /** Once a node is cached and no update is pending, no query reads its file until the next update. */
  lemma {:induction false} CachedNodesAreNotRead(
    topo: Topology, ss: seq<State>, acts: seq<Action>, i: nat, j: nat, node: int)
    requires Run(topo, ss, acts) && i <= j < |ss| == |acts| + 1 && Cached(ss[i], node)
    requires forall k :: i <= k < j ==> acts[k] != MarkStale
    ensures Cached(ss[j], node)
    decreases j
  {
    hide *;
    if i < j {
      CachedNodesAreNotRead(topo, ss, acts, i, j - 1, node);
      RunInv(topo, ss, acts, j - 1);
      RunStep(topo, ss, acts, j - 1);
      CachedNext(topo, ss[j - 1], acts[j - 1], node);
    }
  }

  /** An update is not lost: while the mark is up, the next query with a node in range takes it down and reads its
      node's file, whether the node is cached or not. */
  lemma UpdateIsTaken(topo: Topology, s: State, t: nat, id: nat, id': nat, node: int)
    requires Inv(topo, s) && t in s.threads && s.threads[t] == FetchStale(node) && topo.Has(node) && s.stale
    ensures var s' := Next(topo, s, Advance(t, id));
            && !s'.stale && Enabled(s', Advance(t, id'))
            && t in Next(topo, s', Advance(t, id')).threads
            && Next(topo, s', Advance(t, id')).threads[t] == ReadFile(node, true)
  {
    EntryThere(topo, s, node);
    var s' := Next(topo, s, Advance(t, id));
    hide Inv;
    SameEntry(s, s', node);
  }

  // ----- queries finish -----

  /** A bound on the accesses a query still has to make. */
  function Remaining(topo: Topology, pc: Pc): nat {
    var n := topo.longs;
    match pc
    case Idle => 0
    case Done(_, _) => 0
    case FreeMask(_, _, _) => 1
    case StoreEntry(_, _, _) => 1
    case CopyOut(_, _, buf) => 1 + if |buf| <= n then n - |buf| else 0
    case LoadEntry(_) => n + 2
    case CopyIn(_, _, _, k, _) => 2 + if k <= n then n - k else 0
    case LoadTarget(_, _, _) => n + 3
    case TestAgain(_, _, _, _) => n + 4
    case ReadFile(_, _) => n + 5
    case TestEntry(_, _) => n + 6
    case FetchStale(_) => n + 7
    case PublishArray(_, _) => n + 8
    case AllocArray(_) => n + 9
    case LoadArray(_) => n + 10
  }

  lemma AccessesDecrease(topo: Topology, s: State, t: nat, id: nat, pc: Pc)
    requires Enabled(s, Advance(t, id)) && s.threads[t] == pc && Access(topo, s, id, pc).Made?
    ensures Remaining(topo, Access(topo, s, id, pc).pc) < Remaining(topo, pc)
  {
  }

  function IsAccess(t: nat, a: Action): nat {
    if a.Advance? && a.t == t then 1 else 0
  }

  function Accesses(t: nat, acts: seq<Action>): nat {
    if acts == [] then 0 else Accesses(t, acts[..|acts| - 1]) + IsAccess(t, acts[|acts| - 1])
  }

  lemma RemainingNext(topo: Topology, s: State, a: Action, t: nat)
    requires Inv(topo, s) && Enabled(s, a) && t in s.threads && !(a.Call? && a.t == t)
    ensures t in Next(topo, s, a).threads
    ensures IsAccess(t, a) + Remaining(topo, Next(topo, s, a).threads[t]) <= Remaining(topo, s.threads[t])
  {
    hide Inv, Remaining, Access, OwnsNoMore;
    if a.Advance? {
      OwnedAfter(topo, s, a.t, a.id);
      if a.t == t {
        AdvanceStep(topo, s, t, a.id);
        AccessesDecrease(topo, s, t, a.id, s.threads[t]);
      }
    }
  }

  lemma RemainingBound(topo: Topology, pc: Pc)
    ensures Remaining(topo, pc) <= topo.longs + 10
  {
  }

  /** Whatever the other threads do, a query makes at most longs + 10 accesses of its own. */
  lemma {:induction false} QueriesFinish(topo: Topology, ss: seq<State>, acts: seq<Action>, t: nat, i: nat, j: nat)
    requires Run(topo, ss, acts) && i <= j < |ss| && t in ss[i].threads
    requires forall k :: i <= k < j ==> !(acts[k].Call? && acts[k].t == t)
    ensures t in ss[j].threads
    ensures Accesses(t, acts[i..j]) + Remaining(topo, ss[j].threads[t]) <=
              Remaining(topo, ss[i].threads[t]) <= topo.longs + 10
    decreases j
  {
    hide Inv, Remaining, Next, Enabled, IsAccess;
    RemainingBound(topo, ss[i].threads[t]);
    if i < j {
      QueriesFinish(topo, ss, acts, t, i, j - 1);
      RunInv(topo, ss, acts, j - 1);
      assert acts[i..j][..j - i - 1] == acts[i..j - 1];
      RemainingNext(topo, ss[j - 1], acts[j - 1], t);
    }
  }
}
