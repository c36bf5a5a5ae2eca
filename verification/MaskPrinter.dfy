/**
  bitmap_scnprintf: a mask as comma-separated groups of hexadecimal digits, 32 bits to a group,
  the highest group first and as short as its bits allow.
 */
module MaskPrinter {
  import opened Words
  import opened CText
  import opened Bitmasks

  /** Number of 32-bit groups. */
  function Groups(size: nat): nat {
    (size + 31) / 32
  }

  /** Bits of group c that belong to the mask. */
  function GroupBits(size: nat, c: nat): (b: nat)
    requires c < Groups(size)
    ensures 1 <= b <= 32
  {
    if c + 1 == Groups(size) && size % 32 != 0 then size % 32 else 32
  }

  function GroupValue(w: seq<Word>, size: nat, c: nat): nat
    requires |w| == LongsPerBits(size) && c < Groups(size)
  {
    And(ShiftRight(w[c / 2], 32 * (c % 2)), Pow2(GroupBits(size, c)) - 1)
  }

  function GroupText(w: seq<Word>, size: nat, c: nat): (s: Text)
    requires |w| == LongsPerBits(size) && c < Groups(size)
  {
    HexText(GroupValue(w, size, c), (GroupBits(size, c) + 3) / 4)
  }

  function Separator(printed: nat): Text {
    if printed == 0 then [] else [',']
  }

  /** The k highest groups, highest first. */
  function TopText(w: seq<Word>, size: nat, k: nat): (s: Text)
    requires |w| == LongsPerBits(size) && k <= Groups(size)
  {
    if k == 0 then []
    else TopText(w, size, k - 1) + (Separator(k - 1) + GroupText(w, size, Groups(size) - k))
  }

  function MaskText(w: seq<Word>, size: nat): Text
    requires |w| == LongsPerBits(size)
  {
    TopText(w, size, Groups(size))
  }

  // ----- what a group says -----

  lemma GroupShape(w: seq<Word>, size: nat, c: nat)
    requires |w| == LongsPerBits(size) && c < Groups(size)
    ensures GroupValue(w, size, c) < UINT_MODULUS
    ensures var t := GroupText(w, size, c);
            AllHex(t) && 1 <= |t| <= 8 && (c + 1 < Groups(size) ==> |t| == 8) && Value(t, 16) == GroupValue(w, size, c)
  {
    var b := GroupBits(size, c);
    var v, width := GroupValue(w, size, c), (b + 3) / 4;
    Pow2Monotone(b, 32);
    Pow2Monotone(b, 4 * width);
    Pow2Constants();
    HexTextLength(v, width);
    HexTextValue(v, width);
  }

  /** Bit i of group c is bit 32c + i of the mask, and nothing above the mask's size shows. */
  lemma GroupBit(w: seq<Word>, size: nat, c: nat, i: nat)
    requires |w| == LongsPerBits(size) && c < Groups(size) && i < 32
    ensures Bit(GroupValue(w, size, c), i) <==> 32 * c + i < size && InWords(w, 32 * c + i)
  {
    hide And, ShiftRight, Pow2, Bit, GroupBits;
    var x, m := ShiftRight(w[c / 2], 32 * (c % 2)), Pow2(GroupBits(size, c)) - 1;
    AndBit(x, m, i);
    ShiftRightBit(w[c / 2], 32 * (c % 2), i);
    LowMaskBit(GroupBits(size, c), i);
    BitPosition(c, i);
    InsideGroup(size, c, i);
  }

  lemma BitPosition(c: nat, i: nat)
    requires i < 32
    ensures (32 * c + i) / 64 == c / 2 && (32 * c + i) % 64 == 32 * (c % 2) + i
  {
  }

  lemma InsideGroup(size: nat, c: nat, i: nat)
    requires c < Groups(size) && i < 32
    ensures i < GroupBits(size, c) <==> 32 * c + i < size
  {
  }

  lemma {:induction false} TopTextGrows(w: seq<Word>, size: nat, k: nat, m: nat)
    requires |w| == LongsPerBits(size) && k <= m <= Groups(size)
    ensures |TopText(w, size, k)| <= |TopText(w, size, m)|
  {
    hide GroupText;
    if k < m { TopTextGrows(w, size, k, m - 1); }
  }

  /** The length of the text: one digit for every four bits or part of four of the highest group, and nine characters
      for each other group. */
  lemma MaskTextLength(w: seq<Word>, size: nat)
    requires size >= 1 && |w| == LongsPerBits(size)
    ensures |MaskText(w, size)| == (size - 1) % 32 / 4 + 1 + 9 * ((size - 1) / 32)
  {
    hide TopText, GroupText;
    TopTextLength(w, size, Groups(size));
    GroupLength(w, size, Groups(size) - 1);
    FirstGroupLength(size);
  }

  lemma FirstGroupLength(size: nat)
    requires size >= 1
    ensures Groups(size) == (size - 1) / 32 + 1
    ensures (GroupBits(size, Groups(size) - 1) + 3) / 4 == (size - 1) % 32 / 4 + 1
  {
    var q, r := (size - 1) / 32, (size - 1) % 32;
    assert size == 32 * q + (r + 1);
    TopGroup(size, q, r);
    assert GroupBits(size, q) == r + 1;
    hide GroupBits;
    assert (r + 1 + 3) / 4 == r / 4 + 1;
  }

  lemma TopGroup(size: nat, q: nat, r: nat)
    requires size == 32 * q + (r + 1) && r < 32
    ensures Groups(size) == q + 1
    ensures r < 31 ==> size % 32 == r + 1
    ensures r == 31 ==> size % 32 == 0
  {
  }

  lemma GroupLength(w: seq<Word>, size: nat, c: nat)
    requires |w| == LongsPerBits(size) && c < Groups(size)
    ensures |GroupText(w, size, c)| == (GroupBits(size, c) + 3) / 4
  {
    var b := GroupBits(size, c);
    var v, width := GroupValue(w, size, c), (b + 3) / 4;
    Pow2Monotone(b, 4 * width);
    HexTextLength(v, width);
  }

  lemma {:induction false} TopTextLength(w: seq<Word>, size: nat, k: nat)
    requires |w| == LongsPerBits(size) && 1 <= k <= Groups(size)
    ensures |TopText(w, size, k)| == |GroupText(w, size, Groups(size) - 1)| + 9 * (k - 1)
  {
    hide GroupText;
    if k > 1 {
      TopTextLength(w, size, k - 1);
      LowGroupLength(w, size, Groups(size) - k);
    } else {
      assert TopText(w, size, 0) == [];
    }
  }

  lemma LowGroupLength(w: seq<Word>, size: nat, c: nat)
    requires |w| == LongsPerBits(size) && c + 1 < Groups(size)
    ensures |GroupText(w, size, c)| == 8
  {
    GroupLength(w, size, c);
  }

  // ----- the printer -----

  /** snprintf(buf + at, buf.Length - at, text): as much of the text as fits in front of a terminating NUL. */
  method Emit(buf: array<char>, at: nat, text: Text)
    requires at <= buf.Length
    modifies buf
    ensures at == buf.Length ==> buf[..] == old(buf[..])
    ensures at < buf.Length ==>
              var n := if |text| < buf.Length - at then |text| else buf.Length - at - 1;
              buf[..at + n] == old(buf[..at]) + text[..n] && buf[at + n] == '\0'
  {
    if at == buf.Length { return; }
    var n := if |text| < buf.Length - at then |text| else buf.Length - at - 1;
    for i := 0 to n
      invariant buf[..at] == old(buf[..at])
      invariant forall j :: 0 <= j < i ==> buf[at + j] == text[j]
    {
      buf[at + i] := text[i];
    }
    buf[at + n] := '\0';
  }

  /** A buffer into which the text was printed: all of it and a NUL, or what fits in front of a NUL. */
  ghost predicate Holds(b: seq<char>, text: Text) {
    if |text| < |b| then b[..|text|] == text && b[|text|] == '\0'
    else |b| > 0 ==> b[..|b| - 1] == text[..|b| - 1] && b[|b| - 1] == '\0'
  }

  lemma HoldsMore(was: seq<char>, b: seq<char>, shown: Text, text: Text)
    requires |was| == |b| && |shown| <= |b| && (shown != [] ==> Holds(was, shown))
    requires |shown| == |b| ==> b == was
    requires |shown| < |b| ==>
               var n := if |text| < |b| - |shown| then |text| else |b| - |shown| - 1;
               b[..|shown| + n] == was[..|shown|] + text[..n] && b[|shown| + n] == '\0'
    ensures Holds(b, shown + text)
  {
    if |b| > 0 && |shown| < |b| {
      assert was[..|shown|] == shown;
      var n := if |text| < |b| - |shown| then |text| else |b| - |shown| - 1;
      assert (shown + text)[..|shown| + n] == shown + text[..n];
    } else if |b| > 0 {
      assert (shown + text)[..|b| - 1] == shown[..|b| - 1];
    }
  }

  /** One round of the printer: the text of the group at bit i, k groups having been printed. */
  method FormatGroup(mask: Bitmask, i: nat, chunksz: nat, sep: Text, ghost k: nat) returns (text: Text)
    requires mask.Valid() && k < Groups(mask.size) && i == 32 * (Groups(mask.size) - 1 - k)
    requires chunksz == GroupBits(mask.size, Groups(mask.size) - 1 - k)
    requires sep == Separator(k)
    ensures TopText(mask.maskp[..], mask.size, k) + text == TopText(mask.maskp[..], mask.size, k + 1)
  {
    var word, bit := i / 64, i % 64;
    var val := And(ShiftRight(mask.maskp[word], bit), Pow2(chunksz) - 1);
    text := sep + HexText(val, (chunksz + 3) / 4);
    GroupPosition(Groups(mask.size) - 1 - k);
    assert text == Separator(k) + GroupText(mask.maskp[..], mask.size, Groups(mask.size) - 1 - k);
  }

  lemma GroupPosition(c: nat)
    ensures (32 * c) / 64 == c / 2 && (32 * c) % 64 == 32 * (c % 2)
  {
  }

  /** Only the last group may reach the end of the buffer: from then on the remaining size is negative. */
  ghost predicate Room(length: nat, mask: Bitmask)
    reads mask, mask.maskp
    requires mask.Valid()
  {
    |TopText(mask.maskp[..], mask.size, Groups(mask.size) - 1)| <= length
  }

  method Print(buf: array<char>, mask: Bitmask) returns (len: nat)
    requires mask.Valid() && Room(buf.Length, mask)
    modifies buf
    ensures len == |MaskText(mask.maskp[..], mask.size)|
    ensures Holds(buf[..], MaskText(mask.maskp[..], mask.size))
  {
    hide *;
    len := 0;
    var sep: Text := [];
    var chunksz: nat := mask.size % 32;
    if chunksz == 0 { chunksz := 32; }
    var i: int := (mask.size + 31) / 32 * 32 - 32;
    ghost var k := 0;
    FirstRound(mask.size, i, chunksz);
    NothingPrinted(buf, mask);
    while i >= 0
      invariant Round(mask.size, i, chunksz, sep, k) && Printed(buf, len, mask, k)
      invariant mask.maskp[..] == old(mask.maskp[..])
      decreases i
    {
      NextRound(mask.size, i, chunksz, sep, k);
      len := PrintGroup(buf, len, mask, i, chunksz, sep, k);
      chunksz := 32;
      sep := [','];
      k := k + 1;
      i := i - 32;
    }
    LastRound(mask.size, i, chunksz, sep, k);
    AllPrinted(buf, len, mask);
  }

  /** The variables of the loop after k groups. */
  ghost predicate Round(size: nat, i: int, chunksz: nat, sep: Text, k: nat) {
    && k <= Groups(size) && i + 32 == 32 * (Groups(size) - k)
    && (k < Groups(size) ==> chunksz == GroupBits(size, Groups(size) - 1 - k))
    && sep == Separator(k)
  }

  lemma FirstRound(size: nat, i: int, chunksz: nat)
    requires i == (size + 31) / 32 * 32 - 32 && chunksz == if size % 32 == 0 then 32 else size % 32
    ensures Round(size, i, chunksz, [], 0)
  {
  }

  lemma NextRound(size: nat, i: int, chunksz: nat, sep: Text, k: nat)
    requires Round(size, i, chunksz, sep, k) && i >= 0
    ensures k < Groups(size) && Round(size, i - 32, 32, [','], k + 1)
  {
  }

  lemma LastRound(size: nat, i: int, chunksz: nat, sep: Text, k: nat)
    requires Round(size, i, chunksz, sep, k) && i < 0
    ensures k == Groups(size)
  {
  }

  lemma NothingPrinted(buf: array<char>, mask: Bitmask)
    requires mask.Valid() && Room(buf.Length, mask)
    ensures Printed(buf, 0, mask, 0)
  {
  }

  lemma AllPrinted(buf: array<char>, len: nat, mask: Bitmask)
    requires Printed(buf, len, mask, Groups(mask.size)) && mask.Valid()
    ensures len == |MaskText(mask.maskp[..], mask.size)|
    ensures Holds(buf[..], MaskText(mask.maskp[..], mask.size))
  {
    hide TopText, Holds;
    assert mask.size >= 1 && Groups(mask.size) >= 1;
  }

  /** One round: the separator and the group are written behind what has been printed. */
  method PrintGroup(buf: array<char>, len: nat, mask: Bitmask, i: nat, chunksz: nat, sep: Text, ghost k: nat)
    returns (len': nat)
    requires Printed(buf, len, mask, k) && mask.Valid() && Room(buf.Length, mask)
    requires k < Groups(mask.size) && Round(mask.size, i, chunksz, sep, k)
    modifies buf
    ensures Printed(buf, len', mask, k + 1) && mask.maskp[..] == old(mask.maskp[..])
  {
    hide TopText, GroupText, GroupValue, GroupBits, InWords, Holds;
    ghost var shown := TopText(mask.maskp[..], mask.size, k);
    TopTextGrows(mask.maskp[..], mask.size, k, Groups(mask.size) - 1);
    EmptyIsFirst(mask.maskp[..], mask.size, k);
    var text := FormatGroup(mask, i, chunksz, sep, k);
    Emit(buf, len, text);
    HoldsMore(old(buf[..]), buf[..], shown, text);
    len' := len + |text|;
  }

  lemma EmptyIsFirst(w: seq<Word>, size: nat, k: nat)
    requires |w| == LongsPerBits(size) && k <= Groups(size)
    ensures k == 0 ==> TopText(w, size, k) == []
  {
  }

  /** The k highest groups have been printed into the buffer. */
  ghost predicate Printed(buf: array<char>, len: nat, mask: Bitmask, k: nat)
    reads buf, mask.maskp
  {
    && mask.Valid() && k <= Groups(mask.size)
    && len == |TopText(mask.maskp[..], mask.size, k)|
    && (k > 0 ==> Holds(buf[..], TopText(mask.maskp[..], mask.size, k)))
  }
}
