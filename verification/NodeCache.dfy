/**
  numa_node_to_cpus_v2 with its cache and numa_node_to_cpu_update, called from one thread.
 */
module NodeCache {
  import opened Words
  import opened CText
  import opened Bitmasks
  import opened Sets
  import opened MaskParser
  import opened MaskPrinter
  import opened MaskRoundTrip

  /** A node's cpumap file: not to be read, or its first line. */
  datatype File = Unreadable | Line(text: Text)

  /** Writing the low n bits of a word array. */
  function PutAll(w: seq<Word>, n: nat, v: bool): (r: seq<Word>)
    requires n <= 64 * |w|
    ensures |r| == |w|
  {
    if n == 0 then w
    else
      var r := PutAll(w, n - 1, v);
      PutInWords(r, n - 1, v, 0);
      r[(n - 1) / 64 := PutBit(r[(n - 1) / 64], (n - 1) % 64, v)]
  }

  lemma {:induction false} PutAllBits(w: seq<Word>, n: nat, v: bool, i: nat)
    requires n <= 64 * |w|
    ensures InWords(PutAll(w, n, v), i) <==> if i < n then v else InWords(w, i)
  {
    if n > 0 {
      PutAllBits(w, n - 1, v, i);
      PutInWords(PutAll(w, n - 1, v), n - 1, v, i);
    }
  }

  /** What a new mask holds after the file has been read into it, and the error code. */
  datatype Content = Content(err: int, words: seq<Word>)

  /** An unreadable or unparseable file gives all cpus and an error. */
  function Read(file: File, size: nat): (c: Content)
    ensures |c.words| == LongsPerBits(size)
  {
    var zero := ZeroWords(LongsPerBits(size));
    match file
    case Unreadable => Content(-1, PutAll(zero, size, true))
    case Line(text) =>
      var p := FindNewline(text, 0);
      if p == -1 then Content(-1, PutAll(zero, size, true))
      else
        var r := ParseFrom(text, p, [], LongsPerBits(size));
        var w := r.words + zero[|r.words|..];
        if r.ok then Content(0, w) else Content(-1, PutAll(w, size, true))
  }

  datatype Config = Config(maxnode: nat, possible: nat, size: nat) {
    ghost predicate Valid() {
      maxnode < possible && size >= 1
    }

    predicate InRange(node: int) {
      0 <= node <= maxnode
    }
  }

  /** The cache: the stale mark, and the words of every mask it holds. */
  datatype Cache = Cache(stale: bool, table: map<nat, seq<Word>>)

  /** The return code and the words of the caller's buffer. */
  datatype Answer = Answer(err: int, words: seq<Word>)

  /** One call of numa_node_to_cpus: the cache afterwards, and the answer. buf is what the buffer held before. */
  function Query(cfg: Config, c: Cache, node: int, buf: seq<Word>, bufSize: nat, file: File): (Cache, Answer)
    requires |buf| == LongsPerBits(bufSize)
  {
    if !cfg.InRange(node) then (c, Answer(-1, buf))
    else if node in c.table && !c.stale then
      (c, if bufSize < cfg.size then Answer(-1, PutAll(buf, bufSize, false))
          else Answer(0, CopyWords(c.table[node], |buf|)))
    else
      var got := Read(file, cfg.size);
      var keep := node in c.table || got.err == 0;
      (Cache(false, if keep then c.table[node := got.words] else c.table),
       Answer(got.err, CopyWords(got.words, |buf|)))
  }

  // ----- what a call answers -----

  /** The cpumap of a node is of no use: it cannot be read, or it has no line that ends before a NUL, or its line is
      refused. */
  ghost predicate Useless(file: File, size: nat) {
    || file.Unreadable?
    || (forall i :: 0 <= i < |file.text| && '\0' !in file.text[..i] ==> file.text[i] != '\n')
    || var p := FindNewline(file.text, 0); p >= 0 && !ParseFrom(file.text, p, [], LongsPerBits(size)).ok
  }

  /** A question that goes to a useless cpumap is answered with -1 and with every number below the size of a cpumask
      for which the buffer has room, and what was not cached before is not cached now. */
  lemma UselessCpumap(cfg: Config, c: Cache, node: int, buf: seq<Word>, bufSize: nat, file: File)
    requires cfg.Valid() && 0 <= node <= cfg.maxnode && |buf| == LongsPerBits(bufSize)
    requires (c.stale || node !in c.table) && Useless(file, cfg.size)
    ensures var (c', a) := Query(cfg, c, node, buf, bufSize, file);
            var n := if bufSize < cfg.size then bufSize else cfg.size;
            && a.err == -1 && |a.words| == |buf| && Members(a.words, n) == Below(n)
            && !c'.stale && c'.table.Keys == c.table.Keys
            && forall n :: n in c.table && n != node ==> c'.table[n] == c.table[n]
  {
    hide FindNewline, ParseFrom, PutAll, InWords;
    if file.Line? { NoNewline(file.text, 0); }
    var w := FilledFrom(file, cfg.size);
    CopyFilled(w, cfg.size, bufSize);
  }

  lemma CopyFilled(w: seq<Word>, size: nat, bufSize: nat)
    requires |w| == LongsPerBits(size)
    ensures var n := if bufSize < size then bufSize else size;
            Members(CopyWords(PutAll(w, size, true), LongsPerBits(bufSize)), n) == Below(n)
  {
    hide PutAll, InWords, CopyWords;
    var n := if bufSize < size then bufSize else size;
    forall i: nat | i < n
      ensures InWords(CopyWords(PutAll(w, size, true), LongsPerBits(bufSize)), i)
    {
      CopyInWords(PutAll(w, size, true), LongsPerBits(bufSize), i);
      PutAllBits(w, size, true, i);
    }
  }

  /** The words that the fallback is written over. */
  lemma FilledFrom(file: File, size: nat) returns (w: seq<Word>)
    requires Useless(file, size) && (file.Line? ==> NewlineMeans(file.text, 0))
    ensures |w| == LongsPerBits(size) && Read(file, size) == Content(-1, PutAll(w, size, true))
  {
    hide FindNewline, ParseFrom, PutAll;
    w := ZeroWords(LongsPerBits(size));
    if file.Line? && FindNewline(file.text, 0) != -1 {
      var r := ParseFrom(file.text, FindNewline(file.text, 0), [], LongsPerBits(size));
      w := r.words + w[|r.words|..];
    }
  }

  ghost predicate NewlineMeans(s: Text, i: nat)
    requires i <= |s|
  {
    FindNewline(s, i) == -1 <==> forall k :: i <= k < |s| && '\0' !in s[i..k] ==> s[k] != '\n'
  }

  lemma {:induction false} NoNewline(s: Text, i: nat)
    requires i <= |s|
    ensures NewlineMeans(s, i)
    decreases |s| - i
  {
    if i < |s| && s[i] != '\0' && s[i] != '\n' {
      NoNewline(s, i + 1);
      assert forall k :: i < k <= |s| ==> s[i..k] == [s[i]] + s[i + 1..k];
    }
    assert i < |s| ==> s[i..i] == [];
  }

  lemma AllClear(w: seq<Word>, n: nat)
    requires n <= 64 * |w|
    ensures Members(PutAll(w, n, false), n) == {}
  {
    hide InWords, PutAll;
    forall i: nat | i < n
      ensures !InWords(PutAll(w, n, false), i)
    {
      PutAllBits(w, n, false, i);
    }
  }

  /** A question that goes to the cpumap the kernel shows for a mask, a printed mask and a newline, is answered with
      success and the members of that mask for which the buffer has room, however small it is, and the mask is then
      cached. */
  lemma PrintedCpumap(cfg: Config, c: Cache, node: int, buf: seq<Word>, bufSize: nat, w: seq<Word>, after: Text)
    requires cfg.Valid() && 0 <= node <= cfg.maxnode && |buf| == LongsPerBits(bufSize) && |w| == LongsPerBits(cfg.size)
    requires c.stale || node !in c.table
    ensures var (c', a) := Query(cfg, c, node, buf, bufSize, Line(MaskText(w, cfg.size) + ['\n'] + after));
            && a.err == 0 && Members(a.words, bufSize) == (set i | i in Members(w, cfg.size) && i < bufSize)
            && !c'.stale && c'.table.Keys == c.table.Keys + {node}
            && Members(c'.table[node], cfg.size) == Members(w, cfg.size) && TailZero(c'.table[node], cfg.size)
            && forall n :: n in c.table && n != node ==> c'.table[n] == c.table[n]
  {
    hide ParseFrom, MaskText, InWords, FindNewline, CopyWords;
    PrintThenParse(w, cfg.size, after);
    var got := Read(Line(MaskText(w, cfg.size) + ['\n'] + after), cfg.size);
    var r := ParseFrom(MaskText(w, cfg.size) + ['\n'] + after, |MaskText(w, cfg.size)|, [], |w|);
    assert got.words == r.words + [] == r.words;
    assert got.err == 0 && forall i: nat :: InWords(got.words, i) <==> i < cfg.size && InWords(w, i);
    forall i: nat | i < bufSize
      ensures InWords(CopyWords(got.words, |buf|), i) <==> InWords(got.words, i)
    {
      CopyInWords(got.words, |buf|, i);
    }
  }

  /** A node number out of range is answered with -1; the buffer and the cache, its stale mark included, stay as they
      are. */
  lemma NoSuchNode(cfg: Config, c: Cache, node: int, buf: seq<Word>, bufSize: nat, file: File)
    requires |buf| == LongsPerBits(bufSize) && (node < 0 || node > cfg.maxnode)
    ensures Query(cfg, c, node, buf, bufSize, file) == (c, Answer(-1, buf))
  {
  }

  /** A question answered from the cache leaves the cache alone. A buffer smaller than a cpumask is cleared and gets
      an error, any other gets the cached members. */
  lemma CachedAnswer(cfg: Config, c: Cache, node: int, buf: seq<Word>, bufSize: nat, file: File)
    requires cfg.Valid() && 0 <= node <= cfg.maxnode && |buf| == LongsPerBits(bufSize)
    requires !c.stale && node in c.table && |c.table[node]| == LongsPerBits(cfg.size)
    ensures var (c', a) := Query(cfg, c, node, buf, bufSize, file);
            && c' == c && a.err == (if bufSize < cfg.size then -1 else 0)
            && (bufSize < cfg.size ==> Members(a.words, bufSize) == {})
            && (bufSize >= cfg.size ==> Members(a.words, cfg.size) == Members(c.table[node], cfg.size))
  {
    hide InWords, PutAll;
    if bufSize < cfg.size {
      AllClear(buf, bufSize);
    } else {
      forall i: nat | i < cfg.size
        ensures InWords(CopyWords(c.table[node], |buf|), i) <==> InWords(c.table[node], i)
      {
        CopyInWords(c.table[node], |buf|, i);
      }
    }
  }

  // ----- histories -----

  /** A call of numa_node_to_cpus with a buffer of cpumask size and the file as it is then, or a call of
      numa_node_to_cpu_update. */
  datatype Event = Ask(node: int, file: File) | Update

  function Apply(cfg: Config, c: Cache, e: Event): Cache {
    match e
    case Update => c.(stale := true)
    case Ask(node, file) => Query(cfg, c, node, ZeroWords(LongsPerBits(cfg.size)), cfg.size, file).0
  }

  /** The cache after the first i events. */
  function After(cfg: Config, h: seq<Event>, i: nat): Cache
    requires i <= |h|
  {
    if i == 0 then Cache(true, map[]) else Apply(cfg, After(cfg, h, i - 1), h[i - 1])
  }

  /** The answer to question i. */
  function AnswerAt(cfg: Config, h: seq<Event>, i: nat): Answer
    requires i < |h| && h[i].Ask?
  {
    Query(cfg, After(cfg, h, i), h[i].node, ZeroWords(LongsPerBits(cfg.size)), cfg.size, h[i].file).1
  }

  predicate Asks(cfg: Config, e: Event, node: int) {
    e.Ask? && e.node == node && cfg.InRange(node)
  }

  predicate AsksAny(cfg: Config, e: Event) {
    e.Ask? && cfg.InRange(e.node)
  }

  /** Every file can be read and parsed. */
  ghost predicate Readable(cfg: Config, h: seq<Event>) {
    cfg.Valid() && forall i :: 0 <= i < |h| && h[i].Ask? ==> Read(h[i].file, cfg.size).err == 0
  }

  /** Event u is an update and no question within range comes after it up to i. */
  ghost predicate UpdateJustBefore(cfg: Config, h: seq<Event>, u: nat, i: nat) {
    u < i <= |h| && h[u].Update? && forall k :: u < k < i ==> !AsksAny(cfg, h[k])
  }

  /** Question i reads its node's file: the node was never asked about before, or it is the first question within
      range, about whatever node, since an update. */
  ghost predicate Rereads(cfg: Config, h: seq<Event>, i: nat) {
    && i < |h| && AsksAny(cfg, h[i])
    && ((forall k :: 0 <= k < i ==> !Asks(cfg, h[k], h[i].node)) || exists u :: UpdateJustBefore(cfg, h, u, i))
  }

  /** The latest reread of the node before i. */
  ghost predicate IsLastReread(cfg: Config, h: seq<Event>, node: int, i: nat, j: nat) {
    && j < i <= |h| && Rereads(cfg, h, j) && h[j].node == node
    && forall k :: j < k < i && h[k].Ask? && h[k].node == node ==> !Rereads(cfg, h, k)
  }

  ghost predicate NothingAsked(cfg: Config, h: seq<Event>, i: nat) {
    i <= |h| && forall k :: 0 <= k < i ==> !AsksAny(cfg, h[k])
  }

  ghost predicate JustUpdated(cfg: Config, h: seq<Event>, i: nat) {
    exists u :: UpdateJustBefore(cfg, h, u, i)
  }

  ghost predicate Asked(cfg: Config, h: seq<Event>, i: nat, node: int) {
    i <= |h| && exists k :: 0 <= k < i && Asks(cfg, h[k], node)
  }

  /** How the three depend on the last event. */
  lemma HistoryNext(cfg: Config, h: seq<Event>, i: nat, node: int)
    requires i < |h|
    ensures NothingAsked(cfg, h, i + 1) <==> NothingAsked(cfg, h, i) && !AsksAny(cfg, h[i])
    ensures JustUpdated(cfg, h, i + 1) <==> h[i].Update? || (JustUpdated(cfg, h, i) && !AsksAny(cfg, h[i]))
    ensures Asked(cfg, h, i + 1, node) <==> Asked(cfg, h, i, node) || Asks(cfg, h[i], node)
  {
    if h[i].Update? { assert UpdateJustBefore(cfg, h, i, i + 1); }
    if JustUpdated(cfg, h, i) && !AsksAny(cfg, h[i]) {
      var u :| UpdateJustBefore(cfg, h, u, i);
      assert UpdateJustBefore(cfg, h, u, i + 1);
    }
    if JustUpdated(cfg, h, i + 1) && !h[i].Update? {
      var u :| UpdateJustBefore(cfg, h, u, i + 1);
      assert UpdateJustBefore(cfg, h, u, i);
    }
  }

  /** The stale mark is up when nothing was asked yet, or nothing since an update. */
  lemma {:induction false} StaleMeaning(cfg: Config, h: seq<Event>, i: nat)
    requires Readable(cfg, h) && i <= |h|
    ensures After(cfg, h, i).stale <==> NothingAsked(cfg, h, i) || JustUpdated(cfg, h, i)
  {
    hide Read, JustUpdated, NothingAsked, Asked;
    if i == 0 {
      assert NothingAsked(cfg, h, 0) by { NothingAskedAtFirst(cfg, h); }
    } else {
      StaleMeaning(cfg, h, i - 1);
      HistoryNext(cfg, h, i - 1, 0);
    }
  }

  lemma NothingAskedAtFirst(cfg: Config, h: seq<Event>)
    ensures NothingAsked(cfg, h, 0) && forall node :: !Asked(cfg, h, 0, node)
  {
  }

  /** A node is cached once it has been asked about. */
  lemma {:induction false} CachedOnceAsked(cfg: Config, h: seq<Event>, i: nat, node: nat)
    requires Readable(cfg, h) && i <= |h|
    ensures node in After(cfg, h, i).table <==> Asked(cfg, h, i, node)
  {
    hide Read, JustUpdated, NothingAsked, Asked;
    if i == 0 {
      NothingAskedAtFirst(cfg, h);
    } else {
      CachedOnceAsked(cfg, h, i - 1, node);
      HistoryNext(cfg, h, i - 1, node);
    }
  }

  /** The rereads are the calls that get to the file. */
  lemma RereadMeaning(cfg: Config, h: seq<Event>, i: nat)
    requires Readable(cfg, h) && i < |h| && AsksAny(cfg, h[i])
    ensures Rereads(cfg, h, i) <==> After(cfg, h, i).stale || h[i].node !in After(cfg, h, i).table
  {
    hide Read, After;
    StaleMeaning(cfg, h, i);
    CachedOnceAsked(cfg, h, i, h[i].node);
    assert NothingAsked(cfg, h, i) ==> !Asked(cfg, h, i, h[i].node);
  }

  /** What is cached for a node was read at the node's latest reread. */
  lemma {:induction false} CachedMeaning(cfg: Config, h: seq<Event>, i: nat, node: nat) returns (j: nat)
    requires Readable(cfg, h) && i <= |h| && node in After(cfg, h, i).table
    ensures IsLastReread(cfg, h, node, i, j)
    ensures After(cfg, h, i).table[node] == Read(h[j].file, cfg.size).words
  {
    hide Read, Rereads;
    var c := After(cfg, h, i - 1);
    if Asks(cfg, h[i - 1], node) {
      RereadMeaning(cfg, h, i - 1);
      if c.stale || node !in c.table {
        j := i - 1;
      } else {
        j := CachedMeaning(cfg, h, i - 1, node);
      }
    } else {
      j := CachedMeaning(cfg, h, i - 1, node);
      if h[i - 1].Ask? && h[i - 1].node == node { NotInRange(cfg, h, i - 1); }
    }
  }

  lemma NotInRange(cfg: Config, h: seq<Event>, i: nat)
    requires i < |h| && !AsksAny(cfg, h[i])
    ensures !Rereads(cfg, h, i)
  {
  }

  lemma CopyWhole(w: seq<Word>)
    ensures CopyWords(w, |w|) == w
  {
  }

  /** In every history with readable files, each answer within range is what the node's file held at the node's
      latest reread, the question itself included. */
  lemma AnswersAreLastReads(cfg: Config, h: seq<Event>, i: nat) returns (j: nat)
    requires Readable(cfg, h) && i < |h| && AsksAny(cfg, h[i])
    ensures IsLastReread(cfg, h, h[i].node, i + 1, j)
    ensures AnswerAt(cfg, h, i) == Answer(0, Read(h[j].file, cfg.size).words)
  {
    hide Read, Rereads;
    var c := After(cfg, h, i);
    RereadMeaning(cfg, h, i);
    if c.stale || h[i].node !in c.table {
      j := i;
      CopyWhole(Read(h[i].file, cfg.size).words);
    } else {
      j := CachedMeaning(cfg, h, i, h[i].node);
      CopyWhole(c.table[h[i].node]);
    }
  }

  /** When the files do not change, the cached function is the uncached parse. */
  lemma FixedFilesAreTransparent(cfg: Config, h: seq<Event>, i: nat, files: seq<File>)
    requires Readable(cfg, h) && i < |h| && AsksAny(cfg, h[i]) && |files| == cfg.maxnode + 1
    requires forall k :: 0 <= k < |h| && AsksAny(cfg, h[k]) ==> h[k].file == files[h[k].node]
    ensures AnswerAt(cfg, h, i) == Answer(0, Read(files[h[i].node], cfg.size).words)
  {
    hide Read, AnswerAt;
    var j := AnswersAreLastReads(cfg, h, i);
  }

  /** The first question within range after an update sees its file as it is then. */
  lemma FirstAfterUpdateIsFresh(cfg: Config, h: seq<Event>, u: nat, i: nat)
    requires Readable(cfg, h) && UpdateJustBefore(cfg, h, u, i) && i < |h| && AsksAny(cfg, h[i])
    ensures AnswerAt(cfg, h, i) == Answer(0, Read(h[i].file, cfg.size).words)
  {
    hide Read, AnswerAt;
    var j := AnswersAreLastReads(cfg, h, i);
    assert Rereads(cfg, h, i);
  }

  /** But there is one mark for all nodes, and the question takes it down. Up to the next update, a question about
      another node is answered from after the update u exactly when its node was not asked about before u. */
  lemma UpdateRefreshes(cfg: Config, h: seq<Event>, u: nat, f: nat, i: nat) returns (j: nat)
    requires Readable(cfg, h) && UpdateJustBefore(cfg, h, u, f) && f <= i < |h|
    requires AsksAny(cfg, h[f]) && AsksAny(cfg, h[i]) && forall k :: u < k <= i ==> !h[k].Update?
    ensures IsLastReread(cfg, h, h[i].node, i + 1, j)
    ensures AnswerAt(cfg, h, i) == Answer(0, Read(h[j].file, cfg.size).words)
    ensures j > u <==> h[i].node == h[f].node || !Asked(cfg, h, u, h[i].node)
  {
    hide Read, AnswerAt, Rereads;
    j := AnswersAreLastReads(cfg, h, i);
    RereadMeans(cfg, h, j);
    RereadMeans(cfg, h, f);
    if j > u && Asked(cfg, h, u, h[i].node) {
      NoLaterMark(cfg, h, u, f, j);
    }
  }

  /** The definition of a reread. */
  lemma RereadMeans(cfg: Config, h: seq<Event>, i: nat)
    requires i < |h|
    ensures Rereads(cfg, h, i) <==>
              AsksAny(cfg, h[i]) && (!Asked(cfg, h, i, h[i].node) || JustUpdated(cfg, h, i))
    ensures JustUpdated(cfg, h, i) <==> exists u :: UpdateJustBefore(cfg, h, u, i)
  {
  }

  /** A node asked about before the update is reread after it only at the first question. */
  lemma NoLaterMark(cfg: Config, h: seq<Event>, u: nat, f: nat, j: nat)
    requires UpdateJustBefore(cfg, h, u, f) && f < |h| && u < j < |h| && AsksAny(cfg, h[f]) && AsksAny(cfg, h[j])
    requires (forall k :: u < k <= j ==> !h[k].Update?) && JustUpdated(cfg, h, j)
    ensures j == f
  {
    var v: nat :| UpdateJustBefore(cfg, h, v, j);
    assert v <= u;
  }

  /** For example, when two nodes have been asked about before the update, the second of them is answered from before
      it. */
  lemma SecondNodeStaysOld(cfg: Config, old0: File, old1: File, new0: File, new1: File)
    requires cfg.Valid() && cfg.maxnode >= 1
    requires Readable(cfg, [Ask(0, old0), Ask(1, old1), Update, Ask(0, new0), Ask(1, new1)])
    ensures var h := [Ask(0, old0), Ask(1, old1), Update, Ask(0, new0), Ask(1, new1)];
            && AnswerAt(cfg, h, 3) == Answer(0, Read(new0, cfg.size).words)
            && AnswerAt(cfg, h, 4) == Answer(0, Read(old1, cfg.size).words)
  {
    hide Read, AnswerAt, Rereads;
    var h := [Ask(0, old0), Ask(1, old1), Update, Ask(0, new0), Ask(1, new1)];
    assert h[1] == Ask(1, old1) && h[2] == Update && h[3] == Ask(0, new0) && h[4] == Ask(1, new1);
    FirstAfterUpdateIsFresh(cfg, h, 2, 3);
    assert Asks(cfg, h[1], 1);
    var j := UpdateRefreshes(cfg, h, 2, 3, 4);
    RereadMeans(cfg, h, j);
    assert j == 1;
  }

  /** A failed read is answered with an error, but if the node was cached already its entry is overwritten, and the
      next question gets the all-cpus fallback as a success; if it was not, nothing is cached. */
  lemma FailedReadIsKept(cfg: Config, c: Cache, node: int, file: File, later: File)
    requires cfg.Valid() && cfg.InRange(node) && (c.stale || node !in c.table) && Read(file, cfg.size).err != 0
    ensures var zero := ZeroWords(LongsPerBits(cfg.size));
            var (c', a) := Query(cfg, c, node, zero, cfg.size, file);
            && a.err == -1
            && (Query(cfg, c', node, zero, cfg.size, later).1 == Answer(0, Read(file, cfg.size).words)
                <==> node in c.table || Read(later, cfg.size) == Content(0, Read(file, cfg.size).words))
  {
    hide Read;
    CopyWhole(Read(file, cfg.size).words);
    CopyWhole(Read(later, cfg.size).words);
    FailureCode(file, cfg.size);
  }

  lemma FailureCode(file: File, size: nat)
    ensures Read(file, size).err == 0 || Read(file, size).err == -1
  {
  }

  // ----- the cache as the library keeps it -----

  /** Writing all low bits one by one is PutAll. */
  method SetLowBits(mask: Bitmask, v: bool)
    requires mask.Valid()
    modifies mask.maskp
    ensures mask.maskp[..] == PutAll(old(mask.maskp[..]), mask.size, v)
  {
    hide InWords, PutAll, Members;
    ghost var was := mask.maskp[..];
    mask.SetAll(v);
    forall i: nat
      ensures InWords(mask.maskp[..], i) <==> InWords(PutAll(was, mask.size, v), i)
    {
      PutAllBits(was, mask.size, v, i);
    }
    SameWords(mask.maskp[..], PutAll(was, mask.size, v));
  }

  /** A new mask, filled from the file. */
  method ReadCpumap(file: File, size: nat) returns (err: int, mask: Bitmask)
    requires size >= 1
    ensures fresh(mask) && fresh(mask.maskp) && mask.Valid() && mask.size == size
    ensures Content(err, mask.maskp[..]) == Read(file, size)
  {
    hide InWords, ParseFrom, PutAll, FindNewline, Members, TailZero;
    mask := new Bitmask(size);
    match file {
      case Unreadable =>
        SetLowBits(mask, true);
        err := -1;
      case Line(text) =>
        var line := new char[|text|](i requires 0 <= i < |text| => text[i]);
        assert line[..] == text;
        err := Parse(line, mask);
        if err < 0 { SetLowBits(mask, true); }
    }
  }

  class NodeCpuCache {
    const cfg: Config
    var entries: array?<Bitmask?>    // node_cpu_mask_v2
    var stale: bool                  // node_cpu_mask_v2_stale
    ghost var Repr: set<object>

    /** Every cached mask is a cpumask of its own. */
    ghost predicate Valid()
      reads this, Repr
    {
      && cfg.Valid() && this in Repr
      && (entries != null ==>
            && entries in Repr && entries.Length == cfg.possible
            && (forall n :: 0 <= n < entries.Length && entries[n] != null ==>
                  entries[n].maskp in Repr && entries[n].Valid() && entries[n].size == cfg.size)
            && (forall m, n :: 0 <= m < n < entries.Length && entries[m] != null && entries[n] != null ==>
                  entries[m].maskp != entries[n].maskp))
    }

    ghost function Table(): map<nat, seq<Word>>
      requires Valid()
      reads this, Repr
    {
      if entries == null then map[]
      else map n: nat | n < cfg.possible && entries[n] != null :: entries[n].maskp[..]
    }

    ghost function Abstract(): Cache
      requires Valid()
      reads this, Repr
    {
      Cache(stale, Table())
    }

    constructor (cfg: Config)
      requires cfg.Valid()
      ensures Valid() && fresh(Repr) && this.cfg == cfg && Abstract() == Cache(true, map[])
    {
      this.cfg := cfg;
      entries := null;
      stale := true;
      Repr := {this};
    }

    /** numa_node_to_cpu_update */
    method MarkStale()
      requires Valid()
      modifies this`stale
      ensures Valid() && Abstract() == old(Abstract()).(stale := true)
    {
      stale := true;
    }

    /** init_node_cpu_mask_v2 */
    method InitEntries()
      requires Valid() && entries == null
      modifies this`entries, this`Repr
      ensures Valid() && entries != null && fresh(Repr - old(Repr)) && Abstract() == old(Abstract())
    {
      entries := new Bitmask?[cfg.possible](_ => null);
      Repr := Repr + {entries};
    }

    /** The new mask becomes the node's entry. */
    method StoreEntry(node: nat, mask: Bitmask)
      requires Valid() && entries != null && node <= cfg.maxnode
      requires mask.Valid() && mask.size == cfg.size && mask.maskp !in Repr
      modifies this`Repr, entries
      ensures Valid() && entries == old(entries) && Repr == old(Repr) + {mask.maskp}
      ensures Abstract() == old(Abstract()).(table := old(Table())[node := mask.maskp[..]])
    {
      entries[node] := mask;
      Repr := Repr + {mask.maskp};
      assert Table() == old(Table())[node := mask.maskp[..]];
    }

    /** The new mask is copied into the node's entry, which other threads may be reading. */
    method RefreshEntry(node: nat, mask: Bitmask)
      requires Valid() && entries != null && node <= cfg.maxnode && entries[node] != null
      requires mask.Valid() && mask.size == cfg.size && mask.maskp !in Repr
      modifies entries[node].maskp
      ensures Valid()
      ensures Abstract() == old(Abstract()).(table := old(Table())[node := mask.maskp[..]])
    {
      hide InWords, Members;
      mask.CopyTo(entries[node]);
      CopyWhole(mask.maskp[..]);
      assert Table() == old(Table())[node := mask.maskp[..]];
    }

    /** The part of the call that goes to the file: the mask read is copied out and put into the cache. */
    method ReadAndStore(node: nat, buffer: Bitmask, file: File, update: bool) returns (err: int)
      requires Valid() && entries != null && node <= cfg.maxnode && buffer.Valid() && buffer.maskp !in Repr
      requires entries[node] != null ==> update
      modifies Repr, buffer.maskp
      ensures Valid() && fresh(Repr - old(Repr)) && buffer.maskp !in Repr
      ensures var got := Read(file, cfg.size);
              && err == got.err
              && buffer.maskp[..] == CopyWords(got.words, buffer.maskp.Length)
              && Abstract() == Cache(old(stale), if node in old(Table()) || err == 0
                                                 then old(Table())[node := got.words] else old(Table()))
    {
      hide Read, PutAll, CopyWords, InWords, Members;
      ghost var table := Table();
      var mask;
      err, mask := ReadCpumap(file, cfg.size);
      mask.CopyTo(buffer);
      assert Table() == table;
      if entries[node] != null {
        if update { RefreshEntry(node, mask); }
      } else if err == 0 {
        StoreEntry(node, mask);
      }
    }

    /** numa_node_to_cpus_v2 */
    method NodeToCpus(node: int, buffer: Bitmask, file: File) returns (err: int)
      requires Valid() && buffer.Valid() && buffer.maskp !in Repr
      modifies Repr, buffer.maskp
      ensures Valid() && fresh(Repr - old(Repr)) && buffer.maskp !in Repr
      ensures (Abstract(), Answer(err, buffer.maskp[..])) ==
                Query(cfg, old(Abstract()), node, old(buffer.maskp[..]), buffer.size, file)
    {
      hide Read, PutAll, CopyWords, InWords, Members;
      ghost var c := Abstract();
      if entries == null { InitEntries(); }
      if node < 0 || node > cfg.maxnode { return -1; }
      SetLowBits(buffer, false);
      assert Abstract() == c;
      var update := stale;
      ClearStale();
      if entries[node] != null && !update {
        err := ServeEntry(node, buffer);
      } else {
        err := ReadAndStore(node, buffer, file, update);
      }
    }

    /** The fetch-and that takes the stale mark down. */
    method ClearStale()
      requires Valid()
      modifies this`stale
      ensures Valid() && Abstract() == old(Abstract()).(stale := false)
    {
      stale := false;
    }

    /** The answer from the cache, once the buffer has been cleared. */
    method ServeEntry(node: nat, buffer: Bitmask) returns (err: int)
      requires Valid() && entries != null && node <= cfg.maxnode && entries[node] != null
      requires buffer.Valid() && buffer.maskp !in Repr
      modifies buffer.maskp
      ensures Valid() && Abstract() == old(Abstract())
      ensures err == (if buffer.size < cfg.size then -1 else 0)
      ensures buffer.maskp[..] ==
                if err == -1 then old(buffer.maskp[..]) else CopyWords(Table()[node], buffer.maskp.Length)
    {
      hide PutAll, CopyWords, InWords, Members;
      if buffer.size < entries[node].size { return -1; }
      entries[node].CopyTo(buffer);
      assert Table() == old(Table());
      return 0;
    }
  }
}
