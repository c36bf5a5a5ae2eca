/**
  read_mask: the same printed masks read forwards, group by group into a temporary array that is then
  turned around; and its agreement with the backward parser.
 */
module MaskReader {
  import opened Words
  import opened CText
  import opened Bitmasks
  import opened MaskPrinter
  import opened MaskParser
  import opened MaskRoundTrip

  /** An unsigned long assigned to an unsigned int. */
  function ToHalf(v: Word): Half {
    v % UINT_MODULUS
  }

  /** The low 32 bits are kept, and the others are lost. */
  lemma ToHalfBits(v: Word, i: nat)
    ensures Bit(ToHalf(v), i) <==> i < 32 && Bit(v, i)
  {
    hide Bit, Pow2;
    Pow2Constants();
    var h := v / UINT_MODULUS;
    assert v == ToHalf(v) + UINT_MODULUS * h;
    if i < 32 {
      JoinBit(ToHalf(v), h, 32, i);
    } else {
      HighBitsClear(ToHalf(v), 32, i);
    }
  }

  /** The numbers at pos and after each single comma, as unsigned ints. */
  function Fields(s: Text, pos: nat): (fs: seq<Half>)
    requires pos <= |s|
    ensures fs != []
    decreases |s| - pos
  {
    var n := Strtoul(s, pos, 16);
    [ToHalf(n.value)] + if At(s, n.end) == ',' then Fields(s, n.end + 1) else []
  }

  function SkipZeros(fs: seq<Half>): (r: seq<Half>)
    ensures |r| <= |fs| && (r == [] || r[0] != 0)
  {
    if fs == [] || fs[0] != 0 then fs else SkipZeros(fs[1..])
  }

  /** Groups listed highest first, as words listed lowest first. */
  function PairUp(fs: seq<Half>): (r: seq<Word>)
    ensures |r| == (|fs| + 1) / 2
  {
    var n := |fs|;
    if n == 0 then []
    else if n == 1 then [fs[0]]
    else [fs[n - 1] + UINT_MODULUS * fs[n - 2]] + PairUp(fs[..n - 2])
  }

  /** What read_mask does on any text at all: nothing when there is no nonzero number or there are too many,
      and otherwise the low words become the groups, the other words stay, and the weight is returned. */
  method ReadMask(s: Text, bmp: Bitmask) returns (r: int)
    requires bmp.Valid()
    modifies bmp.maskp
    ensures var fs := SkipZeros(Fields(s, 0));
            if fs == [] || |fs| > Groups(bmp.size) then
              r == -1 && bmp.maskp[..] == old(bmp.maskp[..])
            else
              && |PairUp(fs)| <= LongsPerBits(bmp.size)
              && bmp.maskp[..] == PairUp(fs) + old(bmp.maskp[..])[|PairUp(fs)|..]
              && r == |bmp.Bits()|
  {
    hide Strtoul, PairUp, InWords, SkipZeros, Fields, Rest, Members;
    var tmplen := (bmp.size + 31) / 32;
    var start := new Half[tmplen];
    var i, end := SkipLeadingZeros(s);
    if i == 0 { return -1; }
    start[0] := i;
    var n := CollectFields(s, i, end, start);
    if n == -1 { return -1; }
    Invert(start, n, bmp);
    r := bmp.Weight();
  }

  /** The first loop: the first nonzero number, or zero if there is none. */
  method SkipLeadingZeros(s: Text) returns (i: Half, end: nat)
    ensures end <= |s|
    ensures SkipZeros(Fields(s, 0)) == if i == 0 then [] else [i] + Rest(s, end)
  {
    hide *;
    var scan := Strtoul(s, 0, 16);
    i, end := ToHalf(scan.value), scan.end;
    FirstField(s, 0);
    while i == 0 && At(s, end) == ','
      invariant end <= |s|
      invariant SkipZeros(Fields(s, 0)) == SkipZeros([i] + Rest(s, end))
      decreases |s| - end
    {
      SkipOne(Rest(s, end));
      NextField(s, end);
      CommaInside(s, end);
      scan := Strtoul(s, end + 1, 16);
      i, end := ToHalf(scan.value), scan.end;
    }
    SkipDone(s, i, end);
  }

  lemma CommaInside(s: Text, end: nat)
    requires At(s, end) == ','
    ensures end < |s|
  {
  }

  /** The second loop: the numbers go to the temporary array, and -1 says that there are too many. */
  method CollectFields(s: Text, i: Half, end0: nat, start: array<Half>) returns (n: int)
    requires end0 <= |s| && start.Length >= 1 && start[0] == i
    modifies start
    ensures var fs := [i] + Rest(s, end0);
            if |fs| > start.Length then n == -1 else n == |fs| && start[..n] == fs
  {
    hide *;
    var end: nat, len: nat := end0, 1;
    ghost var fs, read: seq<Half> := [i] + Rest(s, end0), [i];
    assert start[..1] == read;
    while At(s, end) == ','
      invariant 1 <= len <= start.Length && end <= |s|
      invariant fs == read + Rest(s, end) && start[..len] == read
      decreases |s| - end
    {
      NextField(s, end);
      CommaInside(s, end);
      var scan := Strtoul(s, end + 1, 16);
      var x: Half := ToHalf(scan.value);
      Together(read, x, Rest(s, scan.end));
      end := scan.end;
      if len >= start.Length { return -1; }
      start[len] := x;
      len := len + 1;
      read := read + [x];
    }
    LastField(s, end);
    assert read + [] == read;
    n := len;
  }

  lemma Together(read: seq<Half>, x: Half, rest: seq<Half>)
    ensures read + ([x] + rest) == read + [x] + rest
    ensures |read + ([x] + rest)| > |read|
  {
  }

  lemma FirstField(s: Text, pos: nat)
    requires pos <= |s|
    ensures var n := Strtoul(s, pos, 16); Fields(s, pos) == [ToHalf(n.value)] + Rest(s, n.end)
  {
    hide Strtoul;
  }

  lemma NextField(s: Text, end: nat)
    requires end <= |s| && At(s, end) == ','
    ensures var n := Strtoul(s, end + 1, 16); Rest(s, end) == [ToHalf(n.value)] + Rest(s, n.end)
  {
    hide Strtoul;
    FirstField(s, end + 1);
  }

  lemma LastField(s: Text, end: nat)
    requires end <= |s| && At(s, end) != ','
    ensures Rest(s, end) == []
  {
  }

  lemma SkipOne(fs: seq<Half>)
    ensures SkipZeros([0] + fs) == SkipZeros(fs)
  {
    assert ([0] + fs)[1..] == fs;
  }

  lemma SkipDone(s: Text, i: Half, end: nat)
    requires end <= |s| && (i == 0 ==> At(s, end) != ',')
    ensures SkipZeros([i] + Rest(s, end)) == if i == 0 then [] else [i] + Rest(s, end)
  {
    if i == 0 {
      LastField(s, end);
      SkipOne([]);
    }
  }

  /** The numbers after the one that ended at end. */
  ghost function Rest(s: Text, end: nat): seq<Half>
    requires end <= |s|
  {
    if At(s, end) == ',' then Fields(s, end + 1) else []
  }

  /** Turn the first len groups around into the words of the mask. */
  method Invert(start: array<Half>, len: nat, bmp: Bitmask)
    requires bmp.Valid() && len <= start.Length && len <= Groups(bmp.size)
    modifies bmp.maskp
    ensures var x := PairUp(start[..len]);
            |x| <= LongsPerBits(bmp.size) && bmp.maskp[..] == x + old(bmp.maskp[..])[|x|..]
  {
    hide *;
    var n: nat, m: nat := len, 0;
    ghost var was, done: seq<Word> := bmp.maskp[..], [];
    EnoughWords(bmp, start[..len]);
    BeginInvert(start[..len], was);
    while n > 0
      invariant n <= len && start[..] == old(start[..]) && was == old(bmp.maskp[..])
      invariant Inverted(start[..len], n, m, done, was, bmp.maskp[..])
    {
      var x, n' := TakeWord(start, n);
      InvertNext(start[..len], n, m, done, was, bmp.maskp[..], x, n', start[..n], start[..n']);
      bmp.maskp[m] := x;
      done := done + [x];
      m, n := m + 1, n';
    }
    EndInvert(start[..len], m, done, was, bmp.maskp[..]);
  }

  lemma EnoughWords(bmp: Bitmask, fs: seq<Half>)
    requires bmp.Valid() && |fs| <= Groups(bmp.size)
    ensures |PairUp(fs)| <= bmp.maskp.Length == LongsPerBits(bmp.size)
  {
    hide PairUp;
  }

  /** The groups from n on have become the first m words; the words from m on are what they were. */
  ghost predicate Inverted(fs: seq<Half>, n: nat, m: nat, done: seq<Word>, was: seq<Word>, words: seq<Word>) {
    && n <= |fs| && m == |done| <= |PairUp(fs)| <= |was| == |words|
    && words == done + was[m..]
    && PairUp(fs) == done + PairUp(fs[..n])
  }

  lemma BeginInvert(fs: seq<Half>, was: seq<Word>)
    requires |PairUp(fs)| <= |was|
    ensures Inverted(fs, |fs|, 0, [], was, was)
  {
    hide PairUp;
    assert fs[..|fs|] == fs;
  }

  lemma InvertNext(fs: seq<Half>, n: nat, m: nat, done: seq<Word>, was: seq<Word>, words: seq<Word>, x: Word, n': nat,
                   front: seq<Half>, rest: seq<Half>)
    requires Inverted(fs, n, m, done, was, words) && n' <= n
    requires front == fs[..n] && rest == fs[..n'] && PairUp(front) == [x] + PairUp(rest)
    ensures m < |words| && Inverted(fs, n', m + 1, done + [x], was, words[m := x])
  {
    hide PairUp;
    StoreNext(done, was, x);
  }

  lemma EndInvert(fs: seq<Half>, m: nat, done: seq<Word>, was: seq<Word>, words: seq<Word>)
    requires Inverted(fs, 0, m, done, was, words)
    ensures |PairUp(fs)| <= |was| && words == PairUp(fs) + was[|PairUp(fs)|..]
  {
    assert fs[..0] == [] && PairUp([]) == [];
  }

  /** One or two groups off the end of the list make a word. */
  method TakeWord(start: array<Half>, len: nat) returns (x: Word, n: nat)
    requires 0 < len <= start.Length
    ensures n == if len == 1 then 0 else len - 2
    ensures PairUp(start[..len]) == [x] + PairUp(start[..n])
  {
    hide Or, Pow2;
    n := len;
    var w, y := 0, 0;
    ghost var g := start[..len];
    while n > 0 && w < 64
      invariant w == 0 ==> n == len && y == 0
      invariant w == 32 ==> n == len - 1 && y == g[len - 1]
      invariant w == 64 ==> n == len - 2 && y == g[len - 1] + UINT_MODULUS * g[len - 2]
      invariant w in {0, 32, 64}
      decreases n
    {
      OrShifted(y, start[n - 1], w);
      y := Or(y, Pow2(w) * start[n - 1]);
      n := n - 1;
      w := w + 32;
    }
    x := y;
    assert len >= 2 ==> start[..len - 2] == g[..len - 2];
  }

  /** x | h << w, when x has nothing at or above bit w. */
  lemma OrShifted(x: nat, h: Half, w: nat)
    requires if w == 0 then x == 0 else w == 32 && x < UINT_MODULUS
    ensures Or(x, Pow2(w) * h) == if w == 0 then h as nat else x + UINT_MODULUS * h
  {
    Pow2Constants();
    if w == 32 {
      OrDisjoint(x, h, 32);
    }
  }

  lemma {:induction false} OrDisjoint(x: nat, h: nat, n: nat)
    requires x < Pow2(n)
    ensures Or(x, Pow2(n) * h) == x + Pow2(n) * h
  {
    if n > 0 {
      var a := Pow2(n - 1);
      Halve(0, a, h);
      assert Pow2(n) == 2 * a;
      assert 2 * a * h == 2 * (a * h);
      OrDisjoint(x / 2, h, n - 1);
    }
  }

  // ----- printed text, read forwards -----

  function GroupHalf(w: seq<Word>, size: nat, c: nat): (g: Half)
    requires |w| == LongsPerBits(size) && c < Groups(size)
  {
    GroupShape(w, size, c);
    GroupValue(w, size, c)
  }

  /** The k lowest groups, highest first. */
  function LowGroups(w: seq<Word>, size: nat, k: nat): (fs: seq<Half>)
    requires |w| == LongsPerBits(size) && k <= Groups(size)
    ensures |fs| == k
  {
    if k == 0 then [] else [GroupHalf(w, size, k - 1)] + LowGroups(w, size, k - 1)
  }

  lemma {:induction false} LowGroupsAt(w: seq<Word>, size: nat, k: nat, t: nat)
    requires |w| == LongsPerBits(size) && t < k <= Groups(size)
    ensures LowGroups(w, size, k)[t] == GroupHalf(w, size, k - 1 - t)
  {
    hide GroupHalf;
    if t > 0 { LowGroupsAt(w, size, k - 1, t - 1); }
  }

  function LowText(w: seq<Word>, size: nat, k: nat): (s: Text)
    requires |w| == LongsPerBits(size) && 1 <= k <= Groups(size)
  {
    if k == 1 then GroupText(w, size, 0)
    else GroupText(w, size, k - 1) + ([','] + LowText(w, size, k - 1))
  }

  lemma {:induction false} TopAndLow(w: seq<Word>, size: nat, k: nat)
    requires |w| == LongsPerBits(size) && k < Groups(size)
    ensures MaskText(w, size) == TopText(w, size, k) + (Separator(k) + LowText(w, size, Groups(size) - k))
    decreases Groups(size) - k
  {
    hide *;
    TopTextStep(w, size, k);
    var c: nat := Groups(size) - 1 - k;
    LowTextStep(w, size, c + 1);
    if c > 0 {
      TopAndLow(w, size, k + 1);
      SeparatorIs(k);
      Regroup(TopText(w, size, k), Separator(k), GroupText(w, size, c), [','], LowText(w, size, c));
    }
  }

  lemma SeparatorIs(k: nat)
    ensures Separator(k + 1) == [',']
  {
  }

  lemma TopTextStep(w: seq<Word>, size: nat, k: nat)
    requires |w| == LongsPerBits(size) && k < Groups(size)
    ensures TopText(w, size, k + 1) == TopText(w, size, k) + (Separator(k) + GroupText(w, size, Groups(size) - 1 - k))
    ensures MaskText(w, size) == TopText(w, size, Groups(size))
  {
    hide GroupText;
  }

  lemma Regroup(a: Text, b: Text, g: Text, c: Text, l: Text)
    ensures (a + (b + g)) + (c + l) == a + (b + (g + (c + l)))
  {
  }

  /** What may follow the text: the end of the string, or a character that is neither a digit nor a comma. */
  predicate Ends(s: Text, e: nat) {
    DigitValue(At(s, e)) == 36 && At(s, e) != ','
  }

  lemma {:induction false} FieldsOfLow(w: seq<Word>, size: nat, k: nat, s: Text, pos: nat)
    requires |w| == LongsPerBits(size) && 1 <= k <= Groups(size)
    requires pos + |LowText(w, size, k)| <= |s| && s[pos..pos + |LowText(w, size, k)|] == LowText(w, size, k)
    requires Ends(s, pos + |LowText(w, size, k)|)
    ensures Fields(s, pos) == LowGroups(w, size, k)
    decreases k
  {
    hide *;
    LowTextStep(w, size, k);
    LowGroupsStep(w, size, k);
    var g, u := GroupText(w, size, k - 1), LowText(w, size, k);
    var e := pos + |g|;
    if k == 1 {
      LastGroup(s, e);
      OneField(w, size, 0, s, pos, e);
    } else {
      var t := LowText(w, size, k - 1);
      Parts(s, pos, u, g, t);
      OneField(w, size, k - 1, s, pos, e);
      FieldsOfLow(w, size, k - 1, s, e + 1);
      MoreGroups(s, e);
    }
  }

  /** One group is one field. */
  lemma OneField(w: seq<Word>, size: nat, c: nat, s: Text, pos: nat, e: nat)
    requires |w| == LongsPerBits(size) && c < Groups(size)
    requires pos <= e <= |s| && s[pos..e] == GroupText(w, size, c) && DigitValue(At(s, e)) == 36
    ensures Fields(s, pos) == [GroupHalf(w, size, c)] + Rest(s, e)
  {
    hide *;
    HalfIsValue(w, size, c);
    StrtoulHex(s, pos, e);
    FirstField(s, pos);
  }

  lemma HalfIsValue(w: seq<Word>, size: nat, c: nat)
    requires |w| == LongsPerBits(size) && c < Groups(size)
    ensures var t := GroupText(w, size, c);
            AllHex(t) && 1 <= |t| <= 8 && Value(t, 16) < ULONG_MODULUS && ToHalf(Value(t, 16)) == GroupHalf(w, size, c)
  {
    hide GroupText, GroupValue, Value, AllHex;
    GroupShape(w, size, c);
  }

  lemma LastGroup(s: Text, e: nat)
    requires e <= |s| && Ends(s, e)
    ensures Rest(s, e) == [] && DigitValue(At(s, e)) == 36
  {
  }

  lemma MoreGroups(s: Text, e: nat)
    requires e < |s| && s[e] == ','
    ensures Rest(s, e) == Fields(s, e + 1)
  {
    hide Fields;
  }

  lemma LowGroupsStep(w: seq<Word>, size: nat, k: nat)
    requires |w| == LongsPerBits(size) && 1 <= k <= Groups(size)
    ensures LowGroups(w, size, 0) == []
    ensures LowGroups(w, size, k) == [GroupHalf(w, size, k - 1)] + LowGroups(w, size, k - 1)
  {
    hide GroupHalf;
  }

  lemma LowTextStep(w: seq<Word>, size: nat, k: nat)
    requires |w| == LongsPerBits(size) && 1 <= k <= Groups(size)
    ensures LowText(w, size, k) ==
              if k == 1 then GroupText(w, size, 0) else GroupText(w, size, k - 1) + ([','] + LowText(w, size, k - 1))
  {
    hide GroupText;
  }

  lemma Parts(s: Text, pos: nat, u: Text, g: Text, t: Text)
    requires u == g + ([','] + t) && pos + |u| <= |s| && s[pos..pos + |u|] == u && Ends(s, pos + |u|)
    ensures var e := pos + |g|;
            && e < |s| && s[pos..e] == g && s[e] == ',' && DigitValue(At(s, e)) == 36
            && e + 1 + |t| <= |s| && s[e + 1..e + 1 + |t|] == t && Ends(s, e + 1 + |t|)
  {
    hide Ends;
    var e := pos + |g|;
    assert e + 1 + |t| == pos + |u|;
    assert s[pos..e] == u[..|g|];
    assert s[e] == u[|g|];
    assert s[e + 1..e + 1 + |t|] == u[|g| + 1..];
  }

  // ----- words from groups -----

  lemma {:induction false} PairUpAt(fs: seq<Half>, j: nat)
    requires j < (|fs| + 1) / 2
    ensures var n := |fs|;
            PairUp(fs)[j] == fs[n - 1 - 2 * j] + if 2 * j + 2 <= n then UINT_MODULUS * fs[n - 2 - 2 * j] else 0
    decreases j
  {
    if j > 0 { PairUpAt(fs[..|fs| - 2], j - 1); }
  }

  lemma {:induction false} SkipZerosIs(fs: seq<Half>) returns (z: nat)
    ensures z <= |fs| && SkipZeros(fs) == fs[z..] && forall t :: 0 <= t < z ==> fs[t] == 0
  {
    if fs == [] || fs[0] != 0 {
      z := 0;
    } else {
      z := SkipZerosIs(fs[1..]);
      z := z + 1;
    }
  }

  /** Leading zero groups make no difference to the words, except for zero words on top. */
  lemma SkippedGroupsAreZeroWords(fs: seq<Half>)
    ensures var r := PairUp(SkipZeros(fs));
            |r| <= |PairUp(fs)| && PairUp(fs) == r + ZeroWords(|PairUp(fs)| - |r|)
  {
    hide PairUp;
    var z := SkipZerosIs(fs);
    var gs := fs[z..];
    var r := PairUp(gs) + ZeroWords(|PairUp(fs)| - |PairUp(gs)|);
    forall j | 0 <= j < |PairUp(fs)|
      ensures PairUp(fs)[j] == r[j]
    {
      PairUpAt(fs, j);
      if j < |PairUp(gs)| { PairUpAt(gs, j); }
    }
  }

  lemma GroupsMakeWords(w: seq<Word>, size: nat)
    requires |w| == LongsPerBits(size)
    ensures PairUp(LowGroups(w, size, Groups(size))) == CutWords(w, size, |w|)
  {
    hide PairUp, LowGroups, CutWords, GroupValue, GroupText;
    var fs := LowGroups(w, size, Groups(size));
    forall j | 0 <= j < |w|
      ensures PairUp(fs)[j] == CutWord(w, size, j)
    {
      PairUpAt(fs, j);
      LowGroupsAt(w, size, |fs|, |fs| - 1 - 2 * j);
      if 2 * j + 2 <= |fs| { LowGroupsAt(w, size, |fs|, |fs| - 2 - 2 * j); }
    }
  }

  /** The two parsers agree on every printed mask: run on a cleared mask of the same size, the forward reader
      leaves the words the backward parser stores; it finds no number exactly when the mask is empty, and never
      too many. */
  lemma ReadersAgree(w: seq<Word>, size: nat, after: Text)
    requires size >= 1 && |w| == LongsPerBits(size)
    ensures var line := MaskText(w, size) + ['\n'] + after;
            var fs := SkipZeros(Fields(line, 0));
            && |fs| <= Groups(size) && |PairUp(fs)| <= |w|
            && (fs == [] <==> Members(w, size) == {})
            && PairUp(fs) + ZeroWords(|w| - |PairUp(fs)|) == ParseFrom(line, |MaskText(w, size)|, [], |w|).words
            && Members(PairUp(fs) + ZeroWords(|w| - |PairUp(fs)|), size) == Members(w, size)
  {
    hide ParseFrom, TopText, LowText, Fields, PairUp, GroupValue, SkipZeros, CutWord, InWords;
    var text, line := MaskText(w, size), MaskText(w, size) + ['\n'] + after;
    var all := LowGroups(w, size, Groups(size));
    WholeText(w, size);
    assert line[0..|text|] == text;
    FieldsOfLow(w, size, Groups(size), line, 0);
    GroupsMakeWords(w, size);
    SkippedGroupsAreZeroWords(all);
    var words := CutWords(w, size, |w|);
    ReadTop(w, size, line, |text|, Groups(size), 0, |w|);
    CutMembers(w, size);
    EmptyWhenZero(all, words, size);
  }

  lemma WholeText(w: seq<Word>, size: nat)
    requires size >= 1 && |w| == LongsPerBits(size)
    ensures MaskText(w, size) == LowText(w, size, Groups(size))
  {
    hide GroupText, LowText;
    TopAndLow(w, size, 0);
  }

  lemma CutMembers(w: seq<Word>, size: nat)
    requires |w| == LongsPerBits(size)
    ensures TailZero(CutWords(w, size, |w|), size) && Members(CutWords(w, size, |w|), size) == Members(w, size)
  {
    hide InWords, CutWords;
    forall i: nat
      ensures InWords(CutWords(w, size, |w|), i) <==> i < size && InWords(w, i)
    {
      CutWordsBits(w, size, i);
    }
  }

  /** No nonzero group means no member, and conversely. */
  lemma EmptyWhenZero(fs: seq<Half>, words: seq<Word>, size: nat)
    requires words == PairUp(fs) && TailZero(words, size)
    ensures SkipZeros(fs) == [] <==> Members(words, size) == {}
  {
    hide PairUp, SkipZeros, InWords;
    var z := SkipZerosIs(fs);
    if z == |fs| {
      AllZero(fs, words);
    } else {
      assert fs[z] == fs[z..][0] == SkipZeros(fs)[0];
      var n := SomeBit(fs, words, z);
      assert n in Members(words, size);
    }
  }

  lemma AllZero(fs: seq<Half>, words: seq<Word>)
    requires words == PairUp(fs) && forall t :: 0 <= t < |fs| ==> fs[t] == 0
    ensures forall i: nat :: !InWords(words, i)
  {
    hide PairUp;
    forall j | 0 <= j < |words|
      ensures words[j] == 0
    {
      PairUpAt(fs, j);
    }
    forall i: nat
      ensures !InWords(words, i)
    {
      ZeroWordsEmpty(words, i);
    }
  }

  lemma SomeBit(fs: seq<Half>, words: seq<Word>, z: nat) returns (n: nat)
    requires words == PairUp(fs) && z < |fs| && fs[z] != 0
    ensures InWords(words, n)
  {
    hide InWords, Pow2, Bit;
    var j := NonzeroWord(fs, z);
    Pow2Constants();
    var b := NonzeroHasBit(words[j], 64);
    n := 64 * j + b;
    BitInWord(words, j, b);
  }

  lemma NonzeroWord(fs: seq<Half>, z: nat) returns (j: nat)
    requires z < |fs| && fs[z] != 0
    ensures j < |PairUp(fs)| && PairUp(fs)[j] != 0
  {
    hide PairUp;
    j := (|fs| - 1 - z) / 2;
    PairUpAt(fs, j);
  }

  lemma BitInWord(words: seq<Word>, j: nat, b: nat)
    requires j < |words| && b < 64 && Bit(words[j], b)
    ensures InWords(words, 64 * j + b)
  {
    hide Bit;
    assert (64 * j + b) / 64 == j && (64 * j + b) % 64 == b;
  }
}
