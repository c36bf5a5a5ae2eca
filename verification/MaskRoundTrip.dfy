/**
  What bitmap_scnprintf prints, numa_parse_bitmap_v2 reads back.
 */
module MaskRoundTrip {
  import opened Words
  import opened CText
  import opened Bitmasks
  import opened MaskPrinter
  import opened MaskParser

  // ----- one word -----

  /** Word j of the mask as its two groups say it, so without the bits at or above size. */
  function CutWord(w: seq<Word>, size: nat, j: nat): (x: Word)
    requires |w| == LongsPerBits(size) && j < |w|
  {
    CutWordFits(w, size, j);
    if 2 * j + 1 < Groups(size) then GroupValue(w, size, 2 * j) + UINT_MODULUS * GroupValue(w, size, 2 * j + 1)
    else GroupValue(w, size, 2 * j)
  }

  lemma CutWordFits(w: seq<Word>, size: nat, j: nat)
    requires |w| == LongsPerBits(size) && j < |w|
    ensures 2 * j < Groups(size) && GroupValue(w, size, 2 * j) < ULONG_MODULUS
    ensures 2 * j + 1 < Groups(size) ==>
              GroupValue(w, size, 2 * j) + UINT_MODULUS * GroupValue(w, size, 2 * j + 1) < ULONG_MODULUS
  {
    hide GroupValue, GroupText;
    assert 2 * j < Groups(size);
    GroupShape(w, size, 2 * j);
    if 2 * j + 1 < Groups(size) { GroupShape(w, size, 2 * j + 1); }
  }

  function CutWords(w: seq<Word>, size: nat, n: nat): (r: seq<Word>)
    requires |w| == LongsPerBits(size) && n <= |w|
    ensures |r| == n && forall j :: 0 <= j < n ==> r[j] == CutWord(w, size, j)
  {
    if n == 0 then [] else CutWords(w, size, n - 1) + [CutWord(w, size, n - 1)]
  }

  lemma {:induction false} CutWordBit(w: seq<Word>, size: nat, j: nat, i: nat)
    requires |w| == LongsPerBits(size) && j < |w| && i < 64
    ensures Bit(CutWord(w, size, j), i) <==> 64 * j + i < size && InWords(w, 64 * j + i)
  {
    hide GroupValue, GroupText, Bit, InWords, Pow2, Value;
    Pow2Constants();
    GroupShape(w, size, 2 * j);
    var lo := GroupValue(w, size, 2 * j);
    if i < 32 { GroupBit(w, size, 2 * j, i); }
    if 2 * j + 1 < Groups(size) {
      GroupShape(w, size, 2 * j + 1);
      JoinBit(lo, GroupValue(w, size, 2 * j + 1), 32, i);
      if i >= 32 { GroupBit(w, size, 2 * j + 1, i - 32); }
    } else if i >= 32 {
      HighBitsClear(lo, 32, i);
    }
  }

  /** The words that are read back hold every bit below size and no bit above it. */
  lemma {:induction false} CutWordsBits(w: seq<Word>, size: nat, i: nat)
    requires |w| == LongsPerBits(size)
    ensures InWords(CutWords(w, size, |w|), i) <==> i < size && InWords(w, i)
  {
    hide CutWord, Bit;
    if i / 64 < |w| {
      CutWordBit(w, size, i / 64, i % 64);
      assert 64 * (i / 64) + i % 64 == i;
    }
  }

  // ----- one field of the line -----

  lemma {:induction false} ScanBackIs(s: Text, p: nat, q: nat)
    requires q <= p < |s| && (q == 0 || s[q] == ',')
    requires forall j :: q < j <= p ==> s[j] != ','
    ensures ScanBack(s, p) == q
  {
    if p > q { ScanBackIs(s, p - 1, q); }
  }

  predicate Terminator(c: char) {
    c == ',' || c == '\n'
  }

  /** What may stand before a field: nothing, or text that ends in a comma. */
  predicate FieldStart(pre: Text) {
    pre == [] || pre[|pre| - 1] == ','
  }

  /** A group with nothing before it is a field by itself. */
  lemma {:induction false} SingleField(line: Text, p: nat, lo: Text)
    requires 0 < p < |line| && line[..p] == lo && AllHex(lo) && Terminator(line[p])
    ensures FieldAt(line, p) == Field(line, 0, p)
  {
    forall j | 0 <= j < p
      ensures line[j] != ','
    {
      assert line[j] == lo[j];
    }
    ScanBackIs(line, if line[p] == ',' then p - 1 else p, 0);
  }

  /** The scan from the end of the line stops at the comma in front of the last group. */
  lemma LastComma(line: Text, p: nat, front: Text, lo: Text)
    requires p < |line| && line[..p] == front + [','] + lo && Terminator(line[p])
    requires AllHex(lo) && front != [] && lo != []
    ensures 0 < |front| < p && p > 0 && ScanBack(line, if line[p] == ',' then p - 1 else p) == |front|
  {
    hide ScanBack, IsHexChar;
    var q := |front|;
    assert line[..p][q] == ',';
    forall j | q < j < p
      ensures line[j] != ','
    {
      assert line[j] == line[..p][j] == lo[j - q - 1];
      HexIsNotComma(lo[j - q - 1]);
    }
    ScanBackIs(line, if line[p] == ',' then p - 1 else p, q);
  }

  lemma CommaDeleted(line: Text, p: nat, front: Text, lo: Text)
    requires p < |line| && line[..p] == front + [','] + lo
    ensures Delete(line, |front|, p)[..p - 1] == front + lo
  {
    assert line[..|front|] == line[..p][..|front|] == front;
    assert line[|front| + 1..p] == line[..p][|front| + 1..] == lo;
    assert Delete(line, |front|, p)[..p - 1] == line[..|front|] + line[|front| + 1..p];
  }

  /** Two groups at the end of the line become one field. */
  lemma {:induction false} JoinedField(line: Text, p: nat, pre: Text, hi: Text, lo: Text)
    requires p < |line| && line[..p] == pre + hi + [','] + lo && Terminator(line[p])
    requires FieldStart(pre) && AllHex(hi) && AllHex(lo) && hi != [] && lo != []
    ensures p > 0
    ensures var f := FieldAt(line, p);
            && f.start == |pre| && f.end == p - 1
            && f.line[..p - 1] == pre + hi + lo && f.line[p - 1] == line[p]
  {
    hide ScanBack, AllHex, FieldStart, Terminator, Delete;
    LastComma(line, p, pre + hi, lo);
    CommaDeleted(line, p, pre + hi, lo);
    JoinedStart(Delete(line, |pre + hi|, p), p - 1, pre, hi, lo);
  }

  lemma HexIsNotComma(c: char)
    requires IsHexChar(c)
    ensures c != ','
  {
  }

  lemma {:induction false} JoinedStart(line: Text, e: nat, pre: Text, hi: Text, lo: Text)
    requires e < |line| && line[..e] == pre + hi + lo && FieldStart(pre)
    requires AllHex(hi) && AllHex(lo) && hi != [] && lo != []
    ensures var q := ScanBack(line, |pre + hi|);
            |pre| == if line[q] == ',' then q + 1 else q
  {
    forall j | |pre| <= j < e
      ensures line[j] != ','
    {
      var t := hi + lo;
      assert line[j] == line[..e][j] == t[j - |pre|];
      assert IsHexChar(t[j - |pre|]);
    }
    if pre != [] { assert line[|pre| - 1] == line[..e][|pre| - 1] == ','; }
    ScanBackIs(line, |pre + hi|, if pre == [] then 0 else |pre| - 1);
  }

  lemma JoinedDigits(line: Text, e: nat, pre: Text, hi: Text, lo: Text)
    requires e < |line| && line[..e] == pre + hi + lo && Terminator(line[e])
    requires AllHex(hi) && AllHex(lo) && 1 <= |hi| <= 8 && |lo| == 8
    ensures var v := Value(hi, 16) * UINT_MODULUS + Value(lo, 16);
            v < ULONG_MODULUS && Strtoul(line, |pre|, 16) == Scan(v, e)
  {
    assert line[|pre|..e] == hi + lo by {
      assert line[|pre|..e] == line[..e][|pre|..];
    }
    StrtoulHex(line, |pre|, e);
    JoinedValue(hi, lo);
  }

  lemma JoinedValue(hi: Text, lo: Text)
    requires |lo| == 8
    ensures Value(hi + lo, 16) == Value(hi, 16) * UINT_MODULUS + Value(lo, 16)
  {
    ValueConcat(hi, lo);
    Pow2Constants();
  }

  /** A field whose digits are v is stored and the scan goes on in front of it. */
  lemma ReadField(line: Text, p: nat, v: Word, done: seq<Word>, cap: nat)
    requires 0 < p < |line| && |done| < cap
    requires Strtoul(FieldAt(line, p).line, FieldAt(line, p).start, 16) == Scan(v, FieldAt(line, p).end)
    ensures ParseFrom(line, p, done, cap) ==
              ParseFrom(FieldAt(line, p).line, FieldAt(line, p).start - 1, done + [v], cap)
  {
  }

  lemma NothingLeft(line: Text, done: seq<Word>, cap: nat)
    requires |done| <= cap
    ensures ParseFrom(line, -1, done, cap) == Outcome(true, done, line)
  {
  }

  /** Reading two groups as one word. */
  lemma {:induction false} ReadJoined(line: Text, p: nat, pre: Text, hi: Text, lo: Text, done: seq<Word>, cap: nat)
    returns (rest: Text)
    requires p < |line| && line[..p] == pre + hi + [','] + lo && Terminator(line[p])
    requires FieldStart(pre) && AllHex(hi) && AllHex(lo) && 1 <= |hi| <= 8 && |lo| == 8
    requires |done| < cap
    ensures |rest| == |line| && |pre| < |rest| && rest[..|pre|] == pre
    ensures var v := Value(hi, 16) * UINT_MODULUS + Value(lo, 16);
            v < ULONG_MODULUS && ParseFrom(line, p, done, cap) == ParseFrom(rest, |pre| - 1, done + [v], cap)
  {
    hide ParseFrom, Strtoul, FieldAt;
    JoinedField(line, p, pre, hi, lo);
    rest := FieldAt(line, p).line;
    assert rest[..|pre|] == rest[..p - 1][..|pre|];
    JoinedDigits(rest, p - 1, pre, hi, lo);
    ReadField(line, p, Value(hi, 16) * UINT_MODULUS + Value(lo, 16), done, cap);
  }

  /** Reading a last group by itself. */
  lemma {:induction false} ReadSingle(line: Text, p: nat, lo: Text, done: seq<Word>, cap: nat)
    requires 0 < p < |line| && line[..p] == lo && AllHex(lo) && p <= 8 && Terminator(line[p])
    requires |done| < cap
    ensures Value(lo, 16) < ULONG_MODULUS
    ensures ParseFrom(line, p, done, cap) == Outcome(true, done + [Value(lo, 16)], line)
  {
    SingleField(line, p, lo);
    assert line[0..p] == lo;
    StrtoulHex(line, 0, p);
    ReadField(line, p, Value(lo, 16), done, cap);
  }

  // ----- the whole line -----

  lemma TopTextOne(w: seq<Word>, size: nat)
    requires |w| == LongsPerBits(size) && 1 <= Groups(size)
    ensures TopText(w, size, 0) == []
    ensures TopText(w, size, 1) == GroupText(w, size, Groups(size) - 1)
  {
  }

  lemma TopTextPair(w: seq<Word>, size: nat, k: nat)
    requires |w| == LongsPerBits(size) && 2 <= k <= Groups(size)
    ensures var c := Groups(size) - k;
            TopText(w, size, k) ==
              TopText(w, size, k - 2) + Separator(k - 2) + GroupText(w, size, c + 1) + [','] + GroupText(w, size, c)
  {
    hide GroupText;
  }

  /** What is stored after one more word. */
  lemma StoreGroups(w: seq<Word>, size: nat, j: nat)
    requires |w| == LongsPerBits(size) && 2 * j < Groups(size)
    ensures var lo := Value(GroupText(w, size, 2 * j), 16);
            if 2 * j + 1 < Groups(size) then
              var x := Value(GroupText(w, size, 2 * j + 1), 16) * UINT_MODULUS + lo;
              x < ULONG_MODULUS && CutWords(w, size, j + 1) == CutWords(w, size, j) + [x]
            else
              lo < ULONG_MODULUS && CutWords(w, size, j + 1) == CutWords(w, size, j) + [lo]
  {
    hide GroupText, GroupValue, Value;
    GroupShape(w, size, 2 * j);
    if 2 * j + 1 < Groups(size) { GroupShape(w, size, 2 * j + 1); }
  }

  /** With the k highest groups still to be read and the lower ones stored, the rest is read as well, for as long as
      there is room for another word. */
  lemma {:induction false} ReadTop(w: seq<Word>, size: nat, line: Text, p: nat, k: nat, j: nat, cap: nat)
    requires |w| == LongsPerBits(size) && 1 <= k <= Groups(size) && Groups(size) - k == 2 * j && j <= cap
    requires p < |line| && line[..p] == TopText(w, size, k) && Terminator(line[p])
    ensures var r := ParseFrom(line, p, CutWords(w, size, j), cap);
            && (r.ok <==> |w| <= cap)
            && r.words == CutWords(w, size, if |w| <= cap then |w| else cap)
    decreases k
  {
    hide ParseFrom, GroupText, GroupValue, TopText, CutWord, CutWords, AllHex, Value;
    var c := Groups(size) - k;
    var lo := GroupText(w, size, c);
    GroupShape(w, size, c);
    var done := CutWords(w, size, j);
    TopTextOne(w, size);
    if j == cap {
      NotEmpty(w, size, k);
      NoRoom(line, p, done, cap);
      return;
    }
    StoreGroups(w, size, j);
    if k == 1 {
      ReadSingle(line, p, lo, done, cap);
    } else {
      var hi, pre := GroupText(w, size, c + 1), TopText(w, size, k - 2) + Separator(k - 2);
      GroupShape(w, size, c + 1);
      TopTextPair(w, size, k);
      var rest := ReadJoined(line, p, pre, hi, lo, done, cap);
      if k > 2 {
        assert rest[..|pre| - 1] == pre[..|pre| - 1] == TopText(w, size, k - 2);
        assert rest[|pre| - 1] == pre[|pre| - 1];
        ReadTop(w, size, rest, |pre| - 1, k - 2, j + 1, cap);
      } else {
        NothingLeft(rest, CutWords(w, size, j + 1), cap);
      }
    }
  }

  lemma NotEmpty(w: seq<Word>, size: nat, k: nat)
    requires |w| == LongsPerBits(size) && 1 <= k <= Groups(size)
    ensures TopText(w, size, k) != []
  {
    hide GroupValue;
    GroupShape(w, size, Groups(size) - k);
  }

  /** A field for which there is no room. */
  lemma NoRoom(line: Text, p: nat, done: seq<Word>, cap: nat)
    requires 0 < p < |line| && |done| == cap
    ensures var r := ParseFrom(line, p, done, cap); !r.ok && r.words == done
  {
    hide FieldAt;
  }

  predicate GroupChar(c: char) {
    IsHexChar(c) || c == ','
  }

  lemma {:induction false} TopTextChars(w: seq<Word>, size: nat, k: nat)
    requires |w| == LongsPerBits(size) && k <= Groups(size)
    ensures k > 0 ==> TopText(w, size, k) != []
    ensures forall i :: 0 <= i < |TopText(w, size, k)| ==> GroupChar(TopText(w, size, k)[i])
  {
    hide GroupText, GroupValue;
    if k > 0 {
      TopTextChars(w, size, k - 1);
      GroupShape(w, size, Groups(size) - k);
    }
  }

  lemma {:induction false} FindNewlineIs(s: Text, i: nat, p: nat)
    requires i <= p < |s| && s[p] == '\n'
    requires forall j :: i <= j < p ==> s[j] != '\n' && s[j] != '\0'
    ensures FindNewline(s, i) == p
    decreases p - i
  {
    if i < p { FindNewlineIs(s, i + 1, p); }
  }

  /** Any printed mask with a newline after it, whatever follows, is parsed in full: the words read hold exactly
      the mask's bits below its size. */
  lemma PrintThenParse(w: seq<Word>, size: nat, after: Text)
    requires size >= 1 && |w| == LongsPerBits(size)
    ensures var line := MaskText(w, size) + ['\n'] + after;
            var p := FindNewline(line, 0);
            && p == |MaskText(w, size)|
            && var r := ParseFrom(line, p, [], |w|);
               r.ok && |r.words| == |w| && forall i: nat :: InWords(r.words, i) <==> i < size && InWords(w, i)
  {
    hide ParseFrom, TopText, CutWord, InWords;
    var text, line := MaskText(w, size), MaskText(w, size) + ['\n'] + after;
    TopTextChars(w, size, Groups(size));
    forall j | 0 <= j < |text|
      ensures line[j] != '\n' && line[j] != '\0'
    {
      assert GroupChar(text[j]);
    }
    FindNewlineIs(line, 0, |text|);
    assert line[..|text|] == text;
    ReadTop(w, size, line, |text|, Groups(size), 0, |w|);
    forall i: nat
      ensures InWords(CutWords(w, size, |w|), i) <==> i < size && InWords(w, i)
    {
      CutWordsBits(w, size, i);
    }
  }

  /** A printed mask is refused exactly when the other mask has fewer words; these are then filled all the same. */
  lemma PrintThenParseInto(w: seq<Word>, size: nat, after: Text, cap: nat)
    requires size >= 1 && |w| == LongsPerBits(size)
    ensures var line := MaskText(w, size) + ['\n'] + after;
            var p := FindNewline(line, 0);
            && p == |MaskText(w, size)|
            && var r := ParseFrom(line, p, [], cap);
               && (r.ok <==> |w| <= cap)
               && |r.words| == (if |w| <= cap then |w| else cap)
               && forall i: nat :: InWords(r.words, i) <==> i < size && i < 64 * cap && InWords(w, i)
  {
    hide ParseFrom, TopText, CutWord, InWords, FindNewline;
    PrintThenParse(w, size, after);
    var text, line := MaskText(w, size), MaskText(w, size) + ['\n'] + after;
    assert line[..|text|] == text;
    ReadTop(w, size, line, |text|, Groups(size), 0, cap);
    var n := if |w| <= cap then |w| else cap;
    forall i: nat
      ensures InWords(CutWords(w, size, n), i) <==> i < size && i < 64 * cap && InWords(w, i)
    {
      CutSomeBits(w, size, n, i);
    }
  }

  lemma CutSomeBits(w: seq<Word>, size: nat, n: nat, i: nat)
    requires |w| == LongsPerBits(size) && n <= |w|
    ensures InWords(CutWords(w, size, n), i) <==> i < size && i < 64 * n && InWords(w, i)
  {
    hide CutWord, Bit;
    if i / 64 < n {
      CutWordBit(w, size, i / 64, i % 64);
      assert 64 * (i / 64) + i % 64 == i;
    }
  }

  /** Print a mask, append a newline, parse into another mask of the same size: it succeeds and the target,
      whatever it held, has the same members and clean tail bits. */
  method RoundTrip(buf: array<char>, mask: Bitmask, mask2: Bitmask) returns (err: int)
    requires mask.Valid() && mask2.Valid() && mask.size == mask2.size && mask.maskp != mask2.maskp
    requires |MaskText(mask.maskp[..], mask.size)| + 1 < buf.Length
    modifies buf, mask2.maskp
    ensures err == 0
    ensures mask2.Bits() == mask.Bits() && TailZero(mask2.maskp[..], mask2.size)
  {
    hide ParseFrom, MaskText, InWords, FindNewline, Room;
    ghost var w := mask.maskp[..];
    Fits(mask);
    ghost var after := PrintLine(buf, mask);
    PrintThenParse(w, mask.size, after);
    ghost var r := ParseFrom(buf[..], |MaskText(w, mask.size)|, [], |w|);
    err := Parse(buf, mask2);
    assert mask2.maskp[..] == r.words;
  }

  /** Print a mask and append a newline. */
  method PrintLine(buf: array<char>, mask: Bitmask) returns (ghost after: Text)
    requires mask.Valid() && Room(buf.Length, mask) && |MaskText(mask.maskp[..], mask.size)| + 1 < buf.Length
    modifies buf
    ensures buf[..] == MaskText(mask.maskp[..], mask.size) + ['\n'] + after
  {
    hide MaskText, Room;
    var len := Print(buf, mask);
    buf[len] := '\n';
    buf[len + 1] := '\0';
    after := buf[len + 1..];
    assert buf[..] == buf[..len] + ['\n'] + buf[len + 1..];
  }

  lemma Fits(mask: Bitmask)
    requires mask.Valid()
    ensures forall length: nat :: |MaskText(mask.maskp[..], mask.size)| <= length ==> Room(length, mask)
  {
    hide TopText;
    assert mask.size >= 1;
    TopTextGrows(mask.maskp[..], mask.size, Groups(mask.size) - 1, Groups(mask.size));
  }
}
