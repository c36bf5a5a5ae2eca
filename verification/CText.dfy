/**
  C text: characters with NUL past the end, number scanning as strtoul does it
  (section 7.22.1.4 of ISO/IEC 9899:2011), and the number formats the printers use.
 */
module CText {
  import opened Words

  type Text = seq<char>

  /** The character at i; past the end there is the terminating NUL. */
  function At(s: Text, i: nat): char {
    if i < |s| then s[i] else '\0'
  }

  predicate IsSpace(c: char) {
    c == ' ' || '\t' <= c <= '\r'
  }

  /** The value of c as a digit in bases up to 36; 36 for any other character. */
  function DigitValue(c: char): (v: nat)
    ensures v <= 36
  {
    if '0' <= c <= '9' then c as int - '0' as int
    else if 'a' <= c <= 'z' then 10 + (c as int - 'a' as int)
    else if 'A' <= c <= 'Z' then 10 + (c as int - 'A' as int)
    else 36
  }

  function SkipSpace(s: Text, i: nat): (r: nat)
    ensures i <= r
    decreases |s| - i
  {
    if i < |s| && IsSpace(s[i]) then SkipSpace(s, i + 1) else i
  }

  /** The index past the longest run of base-b digits that starts at i. */
  function DigitRun(s: Text, i: nat, b: nat): (r: nat)
    ensures i <= r && (i <= |s| ==> r <= |s|)
    ensures |s| <= i ==> r == i
    decreases |s| - i
  {
    if i < |s| && DigitValue(s[i]) < b then DigitRun(s, i + 1, b) else i
  }

  /** The number a digit string denotes. */
  function Value(ds: Text, b: nat): nat {
    if ds == [] then 0 else Value(ds[..|ds| - 1], b) * b + DigitValue(ds[|ds| - 1])
  }

  datatype Scan = Scan(value: Word, end: nat)

  predicate HexPrefix(s: Text, i: nat) {
    At(s, i) == '0' && At(s, i + 1) in "xX" && DigitValue(At(s, i + 2)) < 16
  }

  /** strtoul(s + start, &end, base) for base 0 or 16: the value saturates at the largest word, a minus sign
      negates modulo 2^64, and without digits nothing is consumed. */
  function Strtoul(s: Text, start: nat, base: nat): (r: Scan)
    ensures start <= r.end && (start <= |s| ==> r.end <= |s|)
  {
    var i := SkipSpace(s, start);
    var sign := At(s, i);
    var j := if sign == '-' || sign == '+' then i + 1 else i;
    var hex := (base == 0 || base == 16) && HexPrefix(s, j);
    var b := if hex then 16 else if base != 0 then base else if At(s, j) == '0' then 8 else 10;
    var k := if hex then j + 2 else j;
    var e := DigitRun(s, k, b);
    if k < |s| && k < e then
      var v := Value(s[k..e], b);
      if v >= ULONG_MODULUS then Scan(ULONG_MODULUS - 1, e)
      else if sign == '-' && v > 0 then Scan(ULONG_MODULUS - v, e)
      else Scan(v, e)
    else
      Scan(0, start)
  }

  // ----- printing numbers -----

  function DigitChar(d: nat): (c: char)
    requires d < 16
    ensures DigitValue(c) == d && (d < 10 ==> '0' <= c <= '9') && IsHexChar(c)
  {
    if d < 10 then '0' + d as char else 'a' + (d - 10) as char
  }

  predicate IsHexChar(c: char) {
    '0' <= c <= '9' || 'a' <= c <= 'f'
  }

  ghost predicate AllHex(s: Text) {
    forall i :: 0 <= i < |s| ==> IsHexChar(s[i])
  }

  /** printf's %0*lx */
  function HexText(v: nat, width: nat): (s: Text)
    ensures s != [] && AllHex(s)
    decreases v, width
  {
    if v < 16 && width <= 1 then [DigitChar(v)]
    else HexText(v / 16, if width == 0 then 0 else width - 1) + [DigitChar(v % 16)]
  }

  /** printf's %d on a number that is not negative */
  function Decimal(n: nat): (s: Text)
    ensures s != [] && forall i :: 0 <= i < |s| ==> '0' <= s[i] <= '9'
  {
    if n < 10 then [DigitChar(n)] else Decimal(n / 10) + [DigitChar(n % 10)]
  }

  lemma {:induction false} HexTextValue(v: nat, width: nat)
    ensures Value(HexText(v, width), 16) == v
    decreases v, width
  {
    var s := HexText(v, width);
    if !(v < 16 && width <= 1) {
      HexTextValue(v / 16, if width == 0 then 0 else width - 1);
      assert s[..|s| - 1] == HexText(v / 16, if width == 0 then 0 else width - 1);
    } else {
      assert s[..|s| - 1] == [];
    }
  }

  lemma {:induction false} HexTextLength(v: nat, width: nat)
    requires width >= 1 && v < Pow2(4 * width)
    ensures |HexText(v, width)| == width
  {
    if width > 1 {
      Pow2Plus4(4 * (width - 1));
      HexTextLength(v / 16, width - 1);
    } else {
      Pow2Plus4(0);
    }
  }

  lemma {:induction false} DecimalValue(n: nat)
    ensures Value(Decimal(n), 10) == n
    ensures n > 0 ==> Decimal(n)[0] != '0'
    ensures n == 0 ==> Decimal(n) == "0"
  {
    var s := Decimal(n);
    if n >= 10 {
      DecimalValue(n / 10);
      assert s[..|s| - 1] == Decimal(n / 10);
    } else {
      assert s[..|s| - 1] == [];
    }
  }

  lemma Scale16(x: nat, y: nat)
    ensures x * (16 * y) == 16 * (x * y)
  {
  }

  /** Digits written side by side. */
  lemma {:induction false} ValueConcat(a: Text, c: Text)
    ensures Value(a + c, 16) == Value(a, 16) * Pow2(4 * |c|) + Value(c, 16)
  {
    if c == [] {
      assert a + c == a;
    } else {
      var c', x := c[..|c| - 1], Value(a, 16);
      calc {
        Value(a + c, 16);
        { assert (a + c)[..|a + c| - 1] == a + c'; }
        Value(a + c', 16) * 16 + DigitValue(c[|c| - 1]);
        { ValueConcat(a, c'); }
        16 * (x * Pow2(4 * |c'|)) + Value(c', 16) * 16 + DigitValue(c[|c| - 1]);
        { Scale16(x, Pow2(4 * |c'|)); Pow2Plus4(4 * |c'|); }
        x * Pow2(4 * |c|) + Value(c, 16);
      }
    }
  }

  lemma {:induction false} ValueBound(s: Text)
    requires AllHex(s)
    ensures Value(s, 16) < Pow2(4 * |s|)
  {
    if s != [] {
      ValueBound(s[..|s| - 1]);
      Pow2Plus4(4 * (|s| - 1));
      assert IsHexChar(s[|s| - 1]);
    }
  }

  // ----- scanning what was printed -----

  lemma {:induction false} DigitRunIs(s: Text, i: nat, e: nat, b: nat)
    requires i <= e <= |s| && b <= 36
    requires forall j :: i <= j < e ==> DigitValue(s[j]) < b
    requires DigitValue(At(s, e)) >= b
    ensures DigitRun(s, i, b) == e
    decreases e - i
  {
    if i < e { DigitRunIs(s, i + 1, e, b); }
  }

  /** The largest word stands for every number that is too large. */
  function Saturated(n: nat): (w: Word)
    ensures n < ULONG_MODULUS ==> w == n
    ensures n >= ULONG_MODULUS ==> w == 0xFFFF_FFFF_FFFF_FFFF
  {
    if n < ULONG_MODULUS then n else ULONG_MODULUS - 1
  }

  /** A run of digits without a sign and without "0x" is read whole. */
  lemma StrtoulRun(s: Text, p: nat, q: nat, e: nat, base: nat, b: nat)
    requires q < e <= |s| && SkipSpace(s, p) == q && s[q] != '-' && s[q] != '+' && !HexPrefix(s, q)
    requires if base == 0 then b == (if s[q] == '0' then 8 else 10) else b == base
    requires DigitRun(s, q, b) == e
    ensures Strtoul(s, p, base) == Scan(Saturated(Value(s[q..e], b)), e)
  {
    hide SkipSpace, HexPrefix, DigitRun, Value;
  }

  lemma NoHexPrefix(s: Text, q: nat, e: nat)
    requires q < e <= |s| && (forall j :: q <= j < e ==> IsHexChar(s[j])) && DigitValue(At(s, e)) == 36
    ensures !HexPrefix(s, q) && s[q] != '-' && s[q] != '+' && !IsSpace(s[q])
  {
    assert At(s, q + 1) == if q + 1 < e then s[q + 1] else At(s, e);
  }

  /** At most sixteen hexadecimal digits, followed by something else, are read whole and exactly. */
  lemma StrtoulHex(s: Text, p: nat, e: nat)
    requires p < e <= |s| && e - p <= 16
    requires AllHex(s[p..e])
    requires DigitValue(At(s, e)) == 36
    ensures Value(s[p..e], 16) < ULONG_MODULUS
    ensures Strtoul(s, p, 16) == Scan(Value(s[p..e], 16), e)
  {
    hide HexPrefix, Value, Strtoul, Pow2, ULONG_MODULUS;
    forall j | p <= j < e
      ensures IsHexChar(s[j])
    {
      assert s[j] == s[p..e][j - p];
    }
    DigitRunIs(s, p, e, 16);
    NoHexPrefix(s, p, e);
    ValueBound(s[p..e]);
    Pow2Monotone(4 * (e - p), 64);
    Pow2Constants();
    StrtoulRun(s, p, p, e, 16, 16);
  }

  /** Spaces and then a printed number, followed by something else, are read whole in base 0, to the number or, if it is
      too large, to the largest word. */
  lemma StrtoulDecimal(s: Text, p: nat, q: nat, n: nat)
    requires p <= q && q + |Decimal(n)| <= |s|
    requires forall j :: p <= j < q ==> s[j] == ' '
    requires s[q..q + |Decimal(n)|] == Decimal(n)
    requires DigitValue(At(s, q + |Decimal(n)|)) == 36
    ensures Strtoul(s, p, 0) == Scan(Saturated(n), q + |Decimal(n)|)
  {
    hide HexPrefix, Value, Strtoul, Decimal, DigitRun, SkipSpace;
    var e := q + |Decimal(n)|;
    forall j | q <= j < e
      ensures '0' <= s[j] <= '9'
    {
      assert s[j] == s[q..e][j - q];
    }
    NoHexPrefix(s, q, e);
    SkipSpaces(s, p, q);
    DecimalValue(n);
    assert s[q] == s[q..e][0];
    DigitRunIs(s, q, e, if n == 0 then 8 else 10);
    ZeroValue();
    StrtoulRun(s, p, q, e, 0, if n == 0 then 8 else 10);
  }

  lemma ZeroValue()
    ensures Value("0", 8) == 0
  {
    assert "0"[..0] == [];
  }

  lemma {:induction false} SkipSpaces(s: Text, p: nat, q: nat)
    requires p <= q < |s| && !IsSpace(s[q])
    requires forall j :: p <= j < q ==> s[j] == ' '
    ensures SkipSpace(s, p) == q
    decreases q - p
  {
    if p < q { SkipSpaces(s, p + 1, q); }
  }

  // ----- scanning in general -----

  /** The digits in their order, letters in either case. */
  lemma DigitValues(i: nat)
    requires i < 26
    ensures i < 10 ==> DigitValue((48 + i) as char) == i
    ensures DigitValue((65 + i) as char) == DigitValue((97 + i) as char) == 10 + i
  {
  }

  /** A digit string is read in positions. */
  lemma ValueOfDigits(ds: Text, c: char, b: nat)
    ensures Value([], b) == 0 && Value(ds + [c], b) == Value(ds, b) * b + DigitValue(c)
  {
    assert (ds + [c])[..|ds|] == ds;
  }

  predicate AllBlank(s: Text) {
    forall i :: 0 <= i < |s| ==> s[i] in {' ', '\t', '\n', 11 as char, 12 as char, '\r'}
  }

  /** The base that a number is read in. */
  function BaseOf(prefix: Text, digits: Text, base: nat): (b: nat)
    requires digits != []
    ensures b <= 16
  {
    if prefix != [] || base == 16 then 16 else if digits[0] == '0' then 8 else 10
  }

  /** Blanks, a sign, a prefix, digits and anything else: the digits are read in base 16 after "0x" or if that is
      asked for, in base 8 if they start with 0, and in base 10 otherwise; "-" negates modulo 2^64, but what is too
      large is the largest word with or without it. */
  lemma StrtoulForm(blanks: Text, sign: Text, prefix: Text, digits: Text, rest: Text, base: nat)
    requires (base == 0 || base == 16) && AllBlank(blanks) && digits != []
    requires (sign == [] || sign == ['+'] || sign == ['-']) && (prefix == [] || prefix == "0x" || prefix == "0X")
    requires var b := BaseOf(prefix, digits, base);
             && (forall i :: 0 <= i < |digits| ==> DigitValue(digits[i]) < b)
             && (rest == [] || DigitValue(rest[0]) >= b)
    requires prefix == [] ==> !(digits == "0" && |rest| >= 2 && rest[0] in "xX" && DigitValue(rest[1]) < 16)
    ensures var v := Value(digits, BaseOf(prefix, digits, base));
            var front := blanks + (sign + (prefix + digits));
            Strtoul(front + rest, 0, base) ==
              Scan(if v >= ULONG_MODULUS then 0xFFFF_FFFF_FFFF_FFFF
                   else if sign == ['-'] then (ULONG_MODULUS - v) % ULONG_MODULUS else v, |front|)
  {
    hide *;
    Pieces(blanks, sign, prefix, digits, rest);
    var front := blanks + (sign + (prefix + digits));
    StrtoulPieces(front + rest, |blanks|, |blanks| + |sign|, |blanks| + |sign| + |prefix|, |front|,
                  blanks, sign, prefix, digits, rest, base);
  }

  lemma StrtoulPieces(s: Text, i: nat, j: nat, k: nat, e: nat,
                      blanks: Text, sign: Text, prefix: Text, digits: Text, rest: Text, base: nat)
    requires (base == 0 || base == 16) && AllBlank(blanks) && digits != []
    requires (sign == [] || sign == ['+'] || sign == ['-']) && (prefix == [] || prefix == "0x" || prefix == "0X")
    requires var b := BaseOf(prefix, digits, base);
             && (forall i :: 0 <= i < |digits| ==> DigitValue(digits[i]) < b)
             && (rest == [] || DigitValue(rest[0]) >= b)
    requires prefix == [] ==> !(digits == "0" && |rest| >= 2 && rest[0] in "xX" && DigitValue(rest[1]) < 16)
    requires i <= j <= k < e <= |s| && j == i + |sign| && k == j + |prefix| && e == k + |digits|
    requires s[..i] == blanks && s[i..j] == sign && s[j..k] == prefix && s[k..e] == digits && s[e..] == rest
    ensures var v := Value(digits, BaseOf(prefix, digits, base));
            Strtoul(s, 0, base) ==
              Scan(if v >= ULONG_MODULUS then 0xFFFF_FFFF_FFFF_FFFF
                   else if sign == ['-'] then (ULONG_MODULUS - v) % ULONG_MODULUS else v, e)
  {
    hide *;
    var b := BaseOf(prefix, digits, base);
    assert b <= 16 && DigitValue(digits[0]) < b;
    assert SkipSpace(s, 0) == i && (sign == [] ==> At(s, i) != '+' && At(s, i) != '-') by {
      FirstCharacter(s, i, j, k, e, sign, prefix, digits);
      SkipAll(s, i);
    }
    assert DigitRun(s, k, b) == e by { RunIs(s, k, e, digits, rest, b); }
    PrefixIs(s, j, k, e, prefix, digits, rest, base);
    BaseCases(prefix, digits, base);
    StrtoulAt(s, i, sign, j, k, e, base, b);
  }

  lemma BaseCases(prefix: Text, digits: Text, base: nat)
    requires digits != [] && (base == 0 || base == 16)
    ensures BaseOf(prefix, digits, base) ==
              if prefix != [] then 16 else if base != 0 then base else if digits[0] == '0' then 8 else 10
  {
  }

  /** Where the pieces of a text are. */
  lemma Pieces(blanks: Text, sign: Text, prefix: Text, digits: Text, rest: Text)
    ensures var s := blanks + (sign + (prefix + digits)) + rest;
            var i, j := |blanks|, |blanks| + |sign|;
            var k := j + |prefix|;
            var e := k + |digits|;
            && e <= |s| && e == |blanks + (sign + (prefix + digits))|
            && s[..i] == blanks && s[i..j] == sign && s[j..k] == prefix && s[k..e] == digits && s[e..] == rest
  {
  }

  /** What is read after i blanks. */
  lemma StrtoulAt(s: Text, i: nat, sign: Text, j: nat, k: nat, e: nat, base: nat, b: nat)
    requires (base == 0 || base == 16) && SkipSpace(s, 0) == i && i <= j <= k < e <= |s|
    requires s[i..j] == sign && (sign == [] || sign == ['+'] || sign == ['-'])
    requires sign == [] ==> At(s, i) != '+' && At(s, i) != '-'
    requires k == if HexPrefix(s, j) then j + 2 else j
    requires b == if HexPrefix(s, j) then 16 else if base != 0 then base else if At(s, j) == '0' then 8 else 10
    requires DigitRun(s, k, b) == e
    ensures var v := Value(s[k..e], b);
            Strtoul(s, 0, base) ==
              Scan(if v >= ULONG_MODULUS then 0xFFFF_FFFF_FFFF_FFFF
                   else if sign == ['-'] then (ULONG_MODULUS - v) % ULONG_MODULUS else v, e)
  {
    hide SkipSpace, HexPrefix, DigitRun, Value;
    if sign != [] { assert s[i] == s[i..j][0]; }
  }

  lemma {:induction false} SkipFrom(s: Text, p: nat, q: nat)
    requires p <= q <= |s| && AllBlank(s[p..q]) && !IsSpace(At(s, q))
    ensures SkipSpace(s, p) == q
    decreases q - p
  {
    if p < q {
      assert s[p..q][0] == s[p];
      assert s[p + 1..q] == s[p..q][1..];
      SkipFrom(s, p + 1, q);
    }
  }

  lemma SkipAll(s: Text, i: nat)
    requires i <= |s| && AllBlank(s[..i]) && !IsSpace(At(s, i))
    ensures SkipSpace(s, 0) == i
  {
    assert s[0..i] == s[..i];
    SkipFrom(s, 0, i);
  }

  lemma FirstCharacter(s: Text, i: nat, j: nat, k: nat, e: nat, sign: Text, prefix: Text, digits: Text)
    requires digits != [] && DigitValue(digits[0]) < 36
    requires (sign == [] || sign == ['+'] || sign == ['-']) && (prefix == [] || prefix == "0x" || prefix == "0X")
    requires i <= j <= k < e <= |s| && s[i..j] == sign && s[j..k] == prefix && s[k..e] == digits
    ensures !IsSpace(At(s, i)) && (sign == [] ==> At(s, i) != '+' && At(s, i) != '-')
  {
    if sign != [] {
      assert s[i] == s[i..j][0];
    } else if prefix != [] {
      assert s[i] == s[j..k][0];
    } else {
      assert s[i] == s[k..e][0];
    }
  }

  lemma RunIs(s: Text, k: nat, e: nat, digits: Text, rest: Text, b: nat)
    requires k <= e <= |s| && s[k..e] == digits && s[e..] == rest && b <= 16
    requires (forall i :: 0 <= i < |digits| ==> DigitValue(digits[i]) < b) && (rest == [] || DigitValue(rest[0]) >= b)
    ensures DigitRun(s, k, b) == e
  {
    hide DigitValue;
    forall j | k <= j < e
      ensures DigitValue(s[j]) < b
    {
      assert s[j] == s[k..e][j - k];
    }
    if rest != [] { assert s[e] == s[e..][0]; }
    NulIsNoDigit();
    DigitRunIs(s, k, e, b);
  }

  lemma NulIsNoDigit()
    ensures DigitValue('\0') == 36
  {
  }

  lemma PrefixIs(s: Text, j: nat, k: nat, e: nat, prefix: Text, digits: Text, rest: Text, base: nat)
    requires digits != [] && (base == 0 || base == 16) && (prefix == [] || prefix == "0x" || prefix == "0X")
    requires j <= k < e <= |s| && s[j..k] == prefix && s[k..e] == digits && s[e..] == rest
    requires forall i :: 0 <= i < |digits| ==> DigitValue(digits[i]) < BaseOf(prefix, digits, base)
    requires prefix == [] ==> !(digits == "0" && |rest| >= 2 && rest[0] in "xX" && DigitValue(rest[1]) < 16)
    ensures HexPrefix(s, j) <==> prefix != []
    ensures prefix == [] ==> At(s, j) == digits[0]
  {
    assert s[k] == s[k..e][0];
    if prefix != [] {
      assert s[j] == s[j..k][0] && s[j + 1] == s[j..k][1];
    } else if |digits| > 1 {
      assert s[j + 1] == s[k..e][1];
    } else {
      if |rest| > 0 { assert s[j + 1] == s[e..][0]; }
      if |rest| > 1 { assert s[j + 2] == s[e..][1]; }
    }
  }

  /** Without a digit nothing is consumed. */
  lemma StrtoulNothing(blanks: Text, sign: Text, rest: Text, base: nat)
    requires (base == 0 || base == 16) && AllBlank(blanks) && (sign == [] || sign == ['+'] || sign == ['-'])
    requires rest == [] || (DigitValue(rest[0]) >= 10 && DigitValue(rest[0]) >= base)
    requires sign == [] && rest != [] ==> !IsSpace(rest[0]) && rest[0] != '+' && rest[0] != '-'
    ensures Strtoul(blanks + (sign + rest), 0, base) == Scan(0, 0)
  {
    var s := blanks + (sign + rest);
    var i: nat := |blanks|;
    var j: nat := i + |sign|;
    assert s[..i] == blanks && s[i..j] == sign && s[j..] == rest;
    if sign != [] { assert s[i] == s[i..j][0]; }
    if rest != [] { assert s[j] == s[j..][0]; }
    hide SkipSpace, AllBlank, Strtoul, DigitValue;
    NulIsNoDigit();
    SkipAll(s, i);
    NothingAt(s, i, j, base);
  }

  lemma NothingAt(s: Text, i: nat, j: nat, base: nat)
    requires (base == 0 || base == 16) && SkipSpace(s, 0) == i && j <= |s|
    requires j == if At(s, i) == '+' || At(s, i) == '-' then i + 1 else i
    requires DigitValue(At(s, j)) >= 10 && DigitValue(At(s, j)) >= base
    ensures Strtoul(s, 0, base) == Scan(0, 0)
  {
    hide SkipSpace, Value, DigitRun, HexPrefix, DigitValue;
    NoDigit(s, j, if base == 16 then 16 else 10);
  }

  lemma NoDigit(s: Text, j: nat, b: nat)
    requires j <= |s| && DigitValue(At(s, j)) >= b >= 10
    ensures !HexPrefix(s, j) && At(s, j) != '0' && DigitRun(s, j, b) == j
  {
  }
}
