/**
  numactl's option loop: which sequences of options it refuses, and what can have been asked for when it gets to
  the end.
 */
module Options {

  /** An option with the outcome of whatever it depends on outside the loop: ok says that its argument is valid and
      that the library and kernel calls it makes succeed. */
  datatype Opt =
    | Show | Hardware | Balancing
    | Interleave(ok: bool) | WeightedInterleave(ok: bool) | MemBind(ok: bool) | LocalAlloc(ok: bool)
    | Preferred(ok: bool, single: bool)         // single: the mask has exactly one node
    | PreferredMany(ok: bool, kernel: bool)     // kernel: the kernel knows the policy
    | CpuNodeBind(ok: bool) | PhysCpuBind(ok: bool)
    | Attach(ok: bool)                          // --shm or --file
    | Length | ShmMode(ok: bool) | Huge | Offset
    | Dump | DumpNodes | Strict | ShmId(ok: bool)
    | Touch(ok: bool) | Verify(ok: bool)        // ok: the offset is within the length
    | All | CpuCompress | Version | Unknown

  /** Refused: a message and exit(1). Printed: the output was asked for and exit(0). */
  datatype Outcome = Refused | Printed | HardwareShown | ShmDone | Exec

  /** The option selects a memory policy. */
  predicate IsPolicy(o: Opt) {
    o.Interleave? || o.WeightedInterleave? || o.MemBind? || o.LocalAlloc? || o.Preferred? || o.PreferredMany?
  }

  /** The option carries a node list that is kept in mask. */
  predicate IsNodeSpec(o: Opt) {
    o.Interleave? || o.WeightedInterleave? || o.MemBind? || o.Preferred? || o.PreferredMany? || o.CpuNodeBind?
  }

  predicate IsCpuBind(o: Opt) {
    o.CpuNodeBind? || o.PhysCpuBind?
  }

  /** The option describes a segment that is yet to be attached. */
  predicate IsShmSize(o: Opt) {
    o.Length? || o.ShmMode? || o.Huge? || o.Offset?
  }

  predicate IsAttach(o: Opt) { o.Attach? }

  predicate IsDump(o: Opt) { o.Dump? || o.DumpNodes? }

  predicate IsHardware(o: Opt) { o.Hardware? }

  predicate IsAll(o: Opt) { o.All? }

  /** The option carries a node or cpu list. */
  predicate IsSpec(o: Opt) {
    IsNodeSpec(o) || o.PhysCpuBind?
  }

  /** The option can be accepted at all: its argument is valid, and it does not end the program. */
  predicate Proper(o: Opt) {
    && !o.Show? && !o.Version? && !o.Unknown?
    && (IsPolicy(o) || IsCpuBind(o) || o.Attach? || o.ShmMode? || o.ShmId? || o.Touch? || o.Verify? ==> o.ok)
    && (o.PreferredMany? ==> o.kernel)
  }

  /** The option acts on a segment. */
  predicate NeedsSegment(o: Opt) {
    IsDump(o) || o.Touch? || o.Verify? || (o.Preferred? && !o.single)
  }

  predicate Earlier(opts: seq<Opt>, i: nat, p: Opt -> bool)
    requires i <= |opts|
  {
    exists k :: 0 <= k < i && p(opts[k])
  }

  // ----- the loop -----

  /** The flags the loop carries: set_policy != -1, shmattached (and shmfd >= 0), shmoption, did_node_cpu_parse,
      did_cpubind, mask, do_dump, do_hardware and parse_all. */
  datatype Flags = Flags(policySet: bool, attached: bool, shmoption: bool, didParse: bool, didCpubind: bool,
                         haveMask: bool, doDump: bool, doHardware: bool, parseAll: bool)
  {
    /** What the loop asks of an option, flag by flag. */
    predicate Passes(o: Opt) {
      && Proper(o)
      && (policySet ==> !IsPolicy(o) && !o.Hardware? && !o.Balancing? && !o.Attach?)
      && (attached ==> !IsShmSize(o))
      && (shmoption ==> !IsCpuBind(o))
      && (didCpubind ==> !o.Attach?)
      && (didParse ==> !o.All?)
      && (NeedsSegment(o) ==> attached)
      && (o.Verify? ==> policySet && haveMask)
    }

    /** Every flag only ever goes up. */
    function Next(o: Opt): Flags {
      Flags(policySet || IsPolicy(o), attached || IsAttach(o), shmoption || IsShmSize(o), didParse || IsSpec(o),
            didCpubind || IsCpuBind(o), haveMask || IsNodeSpec(o), doDump || IsDump(o), doHardware || IsHardware(o),
            parseAll || IsAll(o))
    }
  }

  /** What the flags say about the options so far. */
  ghost function Past(opts: seq<Opt>, i: nat): Flags
    requires i <= |opts|
  {
    Flags(Earlier(opts, i, IsPolicy), Earlier(opts, i, IsAttach), Earlier(opts, i, IsShmSize), Earlier(opts, i, IsSpec),
          Earlier(opts, i, IsCpuBind), Earlier(opts, i, IsNodeSpec), Earlier(opts, i, IsDump),
          Earlier(opts, i, IsHardware), Earlier(opts, i, IsAll))
  }

  /** Option i passes the checks, given the options before it. */
  ghost predicate Allowed(opts: seq<Opt>, i: nat)
    requires i < |opts|
  {
    Past(opts, i).Passes(opts[i])
  }

  lemma PastNext(opts: seq<Opt>, i: nat)
    requires i < |opts|
    ensures Past(opts, i + 1) == Past(opts, i).Next(opts[i])
  {
    hide Earlier;
    EarlierNext(opts, i, IsPolicy);
    EarlierNext(opts, i, IsAttach);
    EarlierNext(opts, i, IsShmSize);
    EarlierNext(opts, i, IsSpec);
    EarlierNext(opts, i, IsCpuBind);
    EarlierNext(opts, i, IsNodeSpec);
    EarlierNext(opts, i, IsDump);
    EarlierNext(opts, i, IsHardware);
    EarlierNext(opts, i, IsAll);
  }

  class Numactl {
    var policySet: bool, attached: bool, shmoption: bool, didParse: bool, didCpubind: bool
    var haveMask: bool, doDump: bool, doHardware: bool, parseAll: bool

    function Now(): Flags
      reads this
    {
      Flags(policySet, attached, shmoption, didParse, didCpubind, haveMask, doDump, doHardware, parseAll)
    }

    constructor ()
      ensures Now() == Flags(false, false, false, false, false, false, false, false, false)
    {
      policySet, attached, shmoption, didParse, didCpubind := false, false, false, false, false;
      haveMask, doDump, doHardware, parseAll := false, false, false, false;
    }

    /** --interleave */
    method HandleInterleave(o: Opt) returns (go: bool)
      requires o.Interleave?
      modifies this
      ensures go <==> old(Now()).Passes(o)
      ensures go ==> Now() == old(Now()).Next(o)
    {
      if !o.ok { return false; }
      if policySet { return false; }
      haveMask, didParse, policySet := true, true, true;
      go := true;
    }

    /** --weighted-interleave */
    method HandleWeightedInterleave(o: Opt) returns (go: bool)
      requires o.WeightedInterleave?
      modifies this
      ensures go <==> old(Now()).Passes(o)
      ensures go ==> Now() == old(Now()).Next(o)
    {
      if !o.ok { return false; }
      if policySet { return false; }
      haveMask, didParse, policySet := true, true, true;
      go := true;
    }

    /** --membind */
    method HandleMemBind(o: Opt) returns (go: bool)
      requires o.MemBind?
      modifies this
      ensures go <==> old(Now()).Passes(o)
      ensures go ==> Now() == old(Now()).Next(o)
    {
      if policySet || !o.ok { return false; }
      policySet, haveMask, didParse := true, true, true;
      go := true;
    }

    /** --localalloc */
    method HandleLocal(o: Opt) returns (go: bool)
      requires o.LocalAlloc?
      modifies this
      ensures go <==> old(Now()).Passes(o)
      ensures go ==> Now() == old(Now()).Next(o)
    {
      if policySet || !o.ok { return false; }
      policySet := true;
      go := true;
    }

    /** --preferred */
    method HandlePreferred(o: Opt) returns (go: bool)
      requires o.Preferred?
      modifies this
      ensures go <==> old(Now()).Passes(o)
      ensures go ==> Now() == old(Now()).Next(o)
    {
      if !o.ok { return false; }
      if !attached && !o.single { return false; }
      if policySet { return false; }
      haveMask, didParse, policySet := true, true, true;
      go := true;
    }

    /** --preferred-many */
    method HandlePreferredMany(o: Opt) returns (go: bool)
      requires o.PreferredMany?
      modifies this
      ensures go <==> old(Now()).Passes(o)
      ensures go ==> Now() == old(Now()).Next(o)
    {
      if !o.kernel || !o.ok { return false; }
      if policySet { return false; }
      haveMask, didParse, policySet := true, true, true;
      go := true;
    }

    /** --shm and --file */
    method HandleAttach(o: Opt) returns (go: bool)
      requires o.Attach?
      modifies this
      ensures go <==> old(Now()).Passes(o)
      ensures go ==> Now() == old(Now()).Next(o)
    {
      if didCpubind || policySet || !o.ok { return false; }
      attached := true;
      go := true;
    }

    /** --length, --shmmode, --huge and --offset */
    method HandleSize(o: Opt) returns (go: bool)
      requires IsShmSize(o)
      modifies this
      ensures go <==> old(Now()).Passes(o)
      ensures go ==> Now() == old(Now()).Next(o)
    {
      if attached { return false; }
      shmoption := true;
      go := !o.ShmMode? || o.ok;
    }

    /** --dump and --dump-nodes */
    method HandleDump(o: Opt) returns (go: bool)
      requires IsDump(o)
      modifies this
      ensures go <==> old(Now()).Passes(o)
      ensures go ==> Now() == old(Now()).Next(o)
    {
      if !attached { return false; }
      doDump := true;
      go := true;
    }

    /** --touch and --verify */
    method HandleTouch(o: Opt) returns (go: bool)
      requires o.Touch? || o.Verify?
      modifies this
      ensures go <==> old(Now()).Passes(o)
      ensures go ==> Now() == old(Now()).Next(o)
    {
      if !attached { return false; }
      if o.Verify? && !policySet { return false; }
      if !o.ok { return false; }
      if o.Verify? && !haveMask { return false; }
      go := true;
    }

    /** --cpunodebind and --physcpubind */
    method HandleCpus(o: Opt) returns (go: bool)
      requires IsCpuBind(o)
      modifies this
      ensures go <==> old(Now()).Passes(o)
      ensures go ==> Now() == old(Now()).Next(o)
    {
      go := !shmoption && o.ok;
      if go { didCpubind, didParse, haveMask := true, true, haveMask || o.CpuNodeBind?; }
    }

    /** --hardware and --balancing */
    method HandleSwitch(o: Opt) returns (go: bool)
      requires o.Hardware? || o.Balancing?
      modifies this
      ensures go <==> old(Now()).Passes(o)
      ensures go ==> Now() == old(Now()).Next(o)
    {
      if policySet { return false; }
      doHardware := doHardware || o.Hardware?;
      go := true;
    }

    /** --all */
    method HandleAll() returns (go: bool)
      modifies this
      ensures go <==> old(Now()).Passes(All)
      ensures go ==> Now() == old(Now()).Next(All)
    {
      if didParse { return false; }
      parseAll := true;
      go := true;
    }

    /** The options that do not set anything, and those that print something and end the program. */
    method HandlePlain(o: Opt) returns (go: bool, stop: Outcome)
      requires o.Show? || o.Version? || o.Unknown? || o.Strict? || o.ShmId? || o.CpuCompress?
      modifies this
      ensures go <==> old(Now()).Passes(o)
      ensures go ==> Now() == old(Now()).Next(o)
      ensures !go ==> stop == if o.Show? || (o.Version? && !old(policySet)) then Printed else Refused
    {
      match o {
        case Show => return false, Printed;
        case Version => return false, if policySet then Refused else Printed;
        case Unknown => return false, Refused;
        case ShmId(ok) => return ok, Refused;
        case _ => return true, Refused;
      }
    }

    /** The body of the loop: the flags after option o, or a reason to stop. */
    method Handle(o: Opt) returns (go: bool, stop: Outcome)
      modifies this
      ensures go <==> old(Now()).Passes(o)
      ensures go ==> Now() == old(Now()).Next(o)
      ensures !go ==> stop == if o.Show? || (o.Version? && !old(policySet)) then Printed else Refused
    {
      hide Flags.Passes, Flags.Next;
      stop := Refused;
      match o
      case Interleave(_) => go := HandleInterleave(o);
      case WeightedInterleave(_) => go := HandleWeightedInterleave(o);
      case MemBind(_) => go := HandleMemBind(o);
      case LocalAlloc(_) => go := HandleLocal(o);
      case Preferred(_, _) => go := HandlePreferred(o);
      case PreferredMany(_, _) => go := HandlePreferredMany(o);
      case CpuNodeBind(_) => go := HandleCpus(o);
      case PhysCpuBind(_) => go := HandleCpus(o);
      case Attach(_) => go := HandleAttach(o);
      case Length => go := HandleSize(o);
      case ShmMode(_) => go := HandleSize(o);
      case Huge => go := HandleSize(o);
      case Offset => go := HandleSize(o);
      case Dump => go := HandleDump(o);
      case DumpNodes => go := HandleDump(o);
      case Touch(_) => go := HandleTouch(o);
      case Verify(_) => go := HandleTouch(o);
      case Hardware => go := HandleSwitch(o);
      case Balancing => go := HandleSwitch(o);
      case All => go := HandleAll();
      case _ => go, stop := HandlePlain(o);
    }

    /** What follows the loop. */
    method Finish(hasCommand: bool) returns (r: Outcome)
      ensures r == if doHardware then HardwareShown
                   else if attached then (if hasCommand then Refused else ShmDone)
                   else if doDump || shmoption || !hasCommand then Refused
                   else Exec
    {
      if doHardware { return HardwareShown; }
      if attached { return if hasCommand then Refused else ShmDone; }
      if doDump { return Refused; }
      if shmoption { return Refused; }
      if !hasCommand { return Refused; }
      return Exec;
    }
  }

  lemma EarlierNext(opts: seq<Opt>, i: nat, p: Opt -> bool)
    requires i < |opts|
    ensures Earlier(opts, i + 1, p) <==> Earlier(opts, i, p) || p(opts[i])
  {
  }

  /** What main does with a sequence of options: the first option that is not allowed stops it. */
  ghost predicate Accepted(opts: seq<Opt>) {
    forall i :: 0 <= i < |opts| ==> Allowed(opts, i)
  }

  /** main() */
  method Run(opts: seq<Opt>, hasCommand: bool) returns (r: Outcome)
    ensures r == Exec <==>
      Accepted(opts) && hasCommand && !Has(opts, IsHardware) && !Has(opts, IsAttach) && !Has(opts, IsShmSize)
    ensures r == ShmDone <==> Accepted(opts) && !hasCommand && !Has(opts, IsHardware) && Has(opts, IsAttach)
    ensures r == HardwareShown <==> Accepted(opts) && Has(opts, IsHardware)
    ensures r == Printed <==> exists i :: 0 <= i < |opts| && Prints(opts, i)
  {
    hide Earlier, Flags.Passes, Flags.Next;
    var main := new Numactl();
    assert Past(opts, 0) == main.Now() by { NoPast(opts); }
    for i := 0 to |opts|
      invariant fresh(main) && main.Now() == Past(opts, i)
      invariant forall k :: 0 <= k < i ==> Allowed(opts, k)
    {
      PastNext(opts, i);
      var go, stop := main.Handle(opts[i]);
      if !go {
        OnlyFirst(opts, i);
        assert stop == Printed <==> Prints(opts, i);
        return stop;
      }
    }
    if main.doDump { DumpNeedsAttach(opts); }
    NothingPrinted(opts);
    r := main.Finish(hasCommand);
  }

  lemma NothingPrinted(opts: seq<Opt>)
    requires Accepted(opts)
    ensures forall i: nat :: !Prints(opts, i)
  {
    hide Earlier;
    forall i: nat | i < |opts|
      ensures !Prints(opts, i)
    {
      assert Allowed(opts, i);
    }
  }

  lemma NoPast(opts: seq<Opt>)
    ensures Past(opts, 0) == Flags(false, false, false, false, false, false, false, false, false)
  {
  }

  predicate Has(opts: seq<Opt>, p: Opt -> bool) {
    Earlier(opts, |opts|, p)
  }

  /** Option i is the first that is not allowed, and what it asks for is printed: --show, or --version with no policy
      before it. */
  ghost predicate Prints(opts: seq<Opt>, i: nat) {
    && i < |opts| && (forall k :: 0 <= k < i ==> Allowed(opts, k))
    && (opts[i].Show? || (opts[i].Version? && !Earlier(opts, i, IsPolicy)))
  }

  lemma OnlyFirst(opts: seq<Opt>, i: nat)
    requires i < |opts| && !Allowed(opts, i) && forall k :: 0 <= k < i ==> Allowed(opts, k)
    ensures !Accepted(opts)
    ensures forall j: nat :: Prints(opts, j) ==> j == i
  {
    hide Earlier;
    forall j: nat | Prints(opts, j)
      ensures j == i
    {
      assert !Allowed(opts, j);
    }
  }

  // ----- what acceptance means -----

  /** Option b cannot come anywhere behind option a. */
  predicate Conflict(a: Opt, b: Opt) {
    || (IsPolicy(a) && (IsPolicy(b) || b.Hardware? || b.Balancing? || b.Attach?))
    || (a.Attach? && IsShmSize(b))
    || (IsCpuBind(a) && b.Attach?)
    || (IsShmSize(a) && IsCpuBind(b))
    || (IsSpec(a) && b.All?)
  }

  /** Whatever option j needs has been given before it. */
  ghost predicate Served(opts: seq<Opt>, j: nat)
    requires j < |opts|
  {
    && (NeedsSegment(opts[j]) ==> Earlier(opts, j, IsAttach))
    && (opts[j].Verify? ==> Earlier(opts, j, IsPolicy) && Earlier(opts, j, IsNodeSpec))
  }

  /** Nothing before option j is in conflict with it. */
  ghost predicate Clear(opts: seq<Opt>, j: nat)
    requires j < |opts|
  {
    forall i :: 0 <= i < j ==> !Conflict(opts[i], opts[j])
  }

  lemma ClearByKinds(opts: seq<Opt>, j: nat)
    requires j < |opts|
    ensures Clear(opts, j) <==>
      && (Earlier(opts, j, IsPolicy) ==>
        !IsPolicy(opts[j]) && !opts[j].Hardware? && !opts[j].Balancing? && !opts[j].Attach?)
      && (Earlier(opts, j, IsAttach) ==> !IsShmSize(opts[j]))
      && (Earlier(opts, j, IsShmSize) ==> !IsCpuBind(opts[j]))
      && (Earlier(opts, j, IsCpuBind) ==> !opts[j].Attach?)
      && (Earlier(opts, j, IsSpec) ==> !opts[j].All?)
  {
    hide IsPolicy, IsShmSize, IsCpuBind, IsSpec;
  }

  lemma AllowedMeaning(opts: seq<Opt>, j: nat)
    requires j < |opts|
    ensures Allowed(opts, j) <==> Proper(opts[j]) && Clear(opts, j) && Served(opts, j)
  {
    hide Clear, Earlier;
    ClearByKinds(opts, j);
  }

  /** The loop accepts a sequence exactly when every option is proper, no two are in conflict, and each has before it
      what it needs. */
  lemma AcceptedMeaning(opts: seq<Opt>)
    ensures Accepted(opts) <==>
      && (forall i :: 0 <= i < |opts| ==> Proper(opts[i]))
      && (forall i, j :: 0 <= i < j < |opts| ==> !Conflict(opts[i], opts[j]))
      && (forall j :: 0 <= j < |opts| ==> Served(opts, j))
  {
    hide Allowed, Proper, Served, Conflict;
    forall j: nat | j < |opts|
      ensures Allowed(opts, j) <==> Proper(opts[j]) && Clear(opts, j) && Served(opts, j)
    {
      AllowedMeaning(opts, j);
    }
  }

  // ----- the same, option by option -----

  /** Every option but --show, --version and unknown ones, with a valid argument. */
  ghost predicate Listed(o: Opt) {
    o in {
      Hardware, Balancing, Interleave(true), WeightedInterleave(true), MemBind(true), LocalAlloc(true),
      Preferred(true, true), Preferred(true, false), PreferredMany(true, true),
      CpuNodeBind(true), PhysCpuBind(true), Attach(true), Length, ShmMode(true), Huge, Offset,
      Dump, DumpNodes, Strict, ShmId(true), Touch(true), Verify(true), All, CpuCompress}
  }

  /** Behind a policy there is no other and no --hardware, --balancing or segment; behind a segment no size or mode;
      behind a cpu binding no segment; behind a size or mode no cpu binding; and behind a node or cpu list no --all. */
  ghost predicate InWrongOrder(a: Opt, b: Opt) {
    match b
    case Interleave(_) => SetsPolicy(a)
    case WeightedInterleave(_) => SetsPolicy(a)
    case MemBind(_) => SetsPolicy(a)
    case LocalAlloc(_) => SetsPolicy(a)
    case Preferred(_, _) => SetsPolicy(a)
    case PreferredMany(_, _) => SetsPolicy(a)
    case Hardware => SetsPolicy(a)
    case Balancing => SetsPolicy(a)
    case Attach(_) => SetsPolicy(a) || a.CpuNodeBind? || a.PhysCpuBind?
    case Length => a.Attach?
    case ShmMode(_) => a.Attach?
    case Huge => a.Attach?
    case Offset => a.Attach?
    case CpuNodeBind(_) => a in {Length, Huge, Offset, ShmMode(true), ShmMode(false)}
    case PhysCpuBind(_) => a in {Length, Huge, Offset, ShmMode(true), ShmMode(false)}
    case All => (SetsPolicy(a) && !a.LocalAlloc?) || a.CpuNodeBind? || a.PhysCpuBind?
    case _ => false
  }

  /** One of the six policies. */
  ghost predicate SetsPolicy(a: Opt) {
    match a
    case Interleave(_) => true
    case WeightedInterleave(_) => true
    case MemBind(_) => true
    case LocalAlloc(_) => true
    case Preferred(_, _) => true
    case PreferredMany(_, _) => true
    case _ => false
  }

  /** What acts on a segment comes behind one, and so does --preferred with several nodes; --verify also needs a policy
      and a node list. */
  ghost predicate HasWhatItNeeds(opts: seq<Opt>, j: nat)
    requires j < |opts|
  {
    && (opts[j] in {Dump, DumpNodes, Touch(true), Touch(false), Verify(true), Verify(false),
                    Preferred(true, false), Preferred(false, false)} ==>
          exists i :: 0 <= i < j && opts[i].Attach?)
    && (opts[j].Verify? ==>
          && (exists i :: 0 <= i < j && SetsPolicy(opts[i]))
          && exists i :: 0 <= i < j && ((SetsPolicy(opts[i]) && !opts[i].LocalAlloc?) || opts[i].CpuNodeBind?))
  }

  /** Acceptance with every option by its name. */
  lemma AcceptedByName(opts: seq<Opt>)
    ensures Accepted(opts) <==>
      && (forall i :: 0 <= i < |opts| ==> Listed(opts[i]))
      && (forall i, j :: 0 <= i < j < |opts| ==> !InWrongOrder(opts[i], opts[j]))
      && (forall j :: 0 <= j < |opts| ==> HasWhatItNeeds(opts, j))
  {
    AcceptedMeaning(opts);
    hide Accepted, Proper, Conflict, Served, Listed, InWrongOrder, HasWhatItNeeds;
    forall o: Opt
      ensures Proper(o) <==> Listed(o)
    {
      ProperByName(o);
    }
    forall a: Opt, b: Opt
      ensures Conflict(a, b) <==> InWrongOrder(a, b)
    {
      ConflictByName(a, b);
    }
    forall j: nat | j < |opts|
      ensures Served(opts, j) <==> HasWhatItNeeds(opts, j)
    {
      ServedByName(opts, j);
    }
  }

  lemma ProperByName(o: Opt)
    ensures Proper(o) <==> Listed(o)
  {
  }

  lemma ConflictByName(a: Opt, b: Opt)
    ensures Conflict(a, b) <==> InWrongOrder(a, b)
  {
    hide IsPolicy, SetsPolicy;
    assert IsPolicy(a) <==> SetsPolicy(a) by { PolicyByName(a); }
    assert IsPolicy(b) <==> SetsPolicy(b) by { PolicyByName(b); }
    assert IsSpec(a) <==> (SetsPolicy(a) && !a.LocalAlloc?) || a.CpuNodeBind? || a.PhysCpuBind? by { PolicyByName(a); }
    hide IsSpec;
    SetsByName(b);
  }

  lemma PolicyByName(o: Opt)
    ensures IsPolicy(o) <==> SetsPolicy(o)
    ensures IsSpec(o) <==> (SetsPolicy(o) && !o.LocalAlloc?) || o.CpuNodeBind? || o.PhysCpuBind?
  {
  }

  lemma SetsByName(o: Opt)
    ensures SetsPolicy(o) <==>
      o.Interleave? || o.WeightedInterleave? || o.MemBind? || o.LocalAlloc? || o.Preferred? || o.PreferredMany?
  {
  }

  lemma ServedByName(opts: seq<Opt>, j: nat)
    requires j < |opts|
    ensures Served(opts, j) <==> HasWhatItNeeds(opts, j)
  {
  }

  /** What the other outcomes depend on. */
  lemma OutcomesByName(opts: seq<Opt>)
    ensures Has(opts, IsHardware) <==> Hardware in opts
    ensures Has(opts, IsAttach) <==> Attach(true) in opts || Attach(false) in opts
    ensures Has(opts, IsShmSize) <==>
      Length in opts || Huge in opts || Offset in opts || ShmMode(true) in opts || ShmMode(false) in opts
    ensures forall i: nat :: Prints(opts, i) <==>
      && i < |opts| && (forall k :: 0 <= k < i ==> Allowed(opts, k))
      && (opts[i] == Show || (opts[i] == Version && forall k :: 0 <= k < i ==> !SetsPolicy(opts[k])))
  {
    hide Allowed;
  }

  /** A command is run exactly with these options, at most one of the six policies and --balancing before it, and --all
      before every node or cpu list. */
  lemma ExecByName(opts: seq<Opt>)
    ensures Accepted(opts) && !Has(opts, IsHardware) && !Has(opts, IsAttach) && !Has(opts, IsShmSize) <==>
      && (forall i :: 0 <= i < |opts| ==> opts[i] in {
           Balancing, Interleave(true), WeightedInterleave(true), MemBind(true), LocalAlloc(true),
           Preferred(true, true), PreferredMany(true, true), CpuNodeBind(true), PhysCpuBind(true),
           Strict, ShmId(true), All, CpuCompress})
      && (forall i, j :: 0 <= i < j < |opts| && SetsPolicy(opts[i]) ==> !SetsPolicy(opts[j]) && opts[j] != Balancing)
      && (forall i, j :: 0 <= i < j < |opts| && opts[j] == All ==>
           (SetsPolicy(opts[i]) ==> opts[i].LocalAlloc?) && !opts[i].CpuNodeBind? && !opts[i].PhysCpuBind?)
  {
    ExecMeaning(opts);
    hide Accepted, Has, ForProcess, IsPolicy, IsSpec, SetsPolicy;
    forall o: Opt
      ensures ForProcess(o) <==> o in {
           Balancing, Interleave(true), WeightedInterleave(true), MemBind(true), LocalAlloc(true),
           Preferred(true, true), PreferredMany(true, true), CpuNodeBind(true), PhysCpuBind(true),
           Strict, ShmId(true), All, CpuCompress}
      ensures IsPolicy(o) <==> SetsPolicy(o)
      ensures IsSpec(o) <==> (SetsPolicy(o) && !o.LocalAlloc?) || o.CpuNodeBind? || o.PhysCpuBind?
    {
      ForProcessByName(o);
    }
  }

  lemma ForProcessByName(o: Opt)
    ensures ForProcess(o) <==> o in {
      Balancing, Interleave(true), WeightedInterleave(true), MemBind(true), LocalAlloc(true),
      Preferred(true, true), PreferredMany(true, true), CpuNodeBind(true), PhysCpuBind(true),
      Strict, ShmId(true), All, CpuCompress}
    ensures IsPolicy(o) <==> SetsPolicy(o)
    ensures IsSpec(o) <==> (SetsPolicy(o) && !o.LocalAlloc?) || o.CpuNodeBind? || o.PhysCpuBind?
  {
  }

  /** A dump is only accepted after an attach, so the guard against dumping without a segment behind the loop can
      never fire. */
  lemma DumpNeedsAttach(opts: seq<Opt>)
    requires Accepted(opts) && Has(opts, IsDump)
    ensures Has(opts, IsAttach)
  {
    AcceptedMeaning(opts);
    var k :| 0 <= k < |opts| && IsDump(opts[k]);
    assert Served(opts, k);
  }

  /** An option that can stand in front of a command. */
  predicate ForProcess(o: Opt) {
    Proper(o) && !o.Attach? && !IsShmSize(o) && !NeedsSegment(o) && !o.Hardware?
  }

  /** A command is run exactly with these options: none that is about shared memory and no --hardware, at most one
      policy and --balancing before it, and --all before every node or cpu list. */
  lemma ExecMeaning(opts: seq<Opt>)
    ensures Accepted(opts) && !Has(opts, IsHardware) && !Has(opts, IsAttach) && !Has(opts, IsShmSize) <==>
      && (forall i :: 0 <= i < |opts| ==> ForProcess(opts[i]))
      && (forall i, j :: 0 <= i < j < |opts| && IsPolicy(opts[i]) ==> !IsPolicy(opts[j]) && !opts[j].Balancing?)
      && (forall i, j :: 0 <= i < j < |opts| && IsSpec(opts[i]) ==> !opts[j].All?)
  {
    hide Accepted, Proper, IsPolicy, IsSpec;
    AcceptedMeaning(opts);
    if Accepted(opts) && !Has(opts, IsHardware) && !Has(opts, IsAttach) && !Has(opts, IsShmSize) {
      forall i | 0 <= i < |opts|
        ensures ForProcess(opts[i])
      {
        assert Served(opts, i);
      }
    }
  }

  /** In an accepted sequence with a segment: sizes and modes come before every attach, policies and cpu bindings
      after all of them, whatever acts on the segment after one; and cpu bindings and sizes exclude one another. */
  lemma ShmMeaning(opts: seq<Opt>, i: nat, j: nat)
    requires Accepted(opts) && i < |opts| && j < |opts| && i != j && opts[i].Attach?
    ensures IsShmSize(opts[j]) ==> j < i
    ensures IsPolicy(opts[j]) ==> i < j
    ensures IsCpuBind(opts[j]) ==> i < j && !Has(opts, IsShmSize)
    ensures NeedsSegment(opts[j]) ==> Earlier(opts, j, IsAttach)
  {
    hide Accepted;
    AcceptedMeaning(opts);
    assert Served(opts, j);
    assert forall k :: 0 <= k < |opts| && IsShmSize(opts[k]) ==> k <= i;
  }

  /** A cpu binding at the end is accepted after any accepted sequence without a size or mode, whether a segment is
      attached or not: the check that was meant to refuse it tests a variable that is never set. */
  lemma CpuBindAnywhere(opts: seq<Opt>, o: Opt)
    requires o == CpuNodeBind(true) || o == PhysCpuBind(true)
    ensures Accepted(opts + [o]) <==> Accepted(opts) && !Has(opts, IsShmSize)
  {
    hide Past, Flags.Passes;
    BindPasses(Past(opts, |opts|), o);
    forall i: nat | i <= |opts|
      ensures Past(opts + [o], i) == Past(opts, i)
    {
      SamePast(opts, opts + [o], i);
    }
    assert (opts + [o])[|opts|] == o;
    OneMore(opts, o);
    LastShm(opts);
  }

  lemma LastShm(opts: seq<Opt>)
    ensures Past(opts, |opts|).shmoption <==> Has(opts, IsShmSize)
  {
  }

  lemma OneMore(opts: seq<Opt>, o: Opt)
    requires forall i: nat :: i <= |opts| ==> Past(opts + [o], i) == Past(opts, i)
    ensures Accepted(opts + [o]) <==> Accepted(opts) && Past(opts, |opts|).Passes(o)
  {
    hide Past, Flags.Passes;
    forall i: nat | i < |opts|
      ensures Allowed(opts + [o], i) <==> Allowed(opts, i)
    {
      assert (opts + [o])[i] == opts[i];
    }
    assert Allowed(opts + [o], |opts|) <==> Past(opts, |opts|).Passes(o);
  }

  lemma BindPasses(f: Flags, o: Opt)
    requires o == CpuNodeBind(true) || o == PhysCpuBind(true)
    ensures f.Passes(o) <==> !f.shmoption
  {
  }

  lemma SamePast(opts: seq<Opt>, longer: seq<Opt>, i: nat)
    requires i <= |opts| <= |longer| && opts == longer[..|opts|]
    ensures Past(longer, i) == Past(opts, i)
  {
    assert forall k :: 0 <= k < i ==> longer[k] == opts[k];
    assert forall p :: Earlier(longer, i, p) == Earlier(opts, i, p);
  }
}
