/**
  numa_parse_bitmap_v2: reads a printed mask from its end, joining two groups to a word by deleting
  the comma between them in place.
 */
module MaskParser {
  import opened Words
  import opened CText
  import opened Bitmasks

  /** Index of the first newline before the terminating NUL, or -1. */
  function FindNewline(s: Text, i: nat): (p: int)
    requires i <= |s|
    ensures p == -1 || (i <= p < |s| && s[p] == '\n')
    decreases |s| - i
  {
    if i == |s| || s[i] == '\0' then -1 else if s[i] == '\n' then i else FindNewline(s, i + 1)
  }

  /** Walk back from p to a comma or to the start of the line. */
  function ScanBack(s: Text, p: nat): (q: nat)
    requires p < |s|
    ensures q <= p && (q == 0 || s[q] == ',')
    ensures forall j :: q < j <= p ==> s[j] != ','
  {
    if p > 0 && s[p] != ',' then ScanBack(s, p - 1) else p
  }

  /** memmove(q, q + 1, p - q): the characters q+1..p move down by one, the one at q is lost. */
  function Delete(s: Text, q: nat, p: nat): (r: Text)
    requires q <= p < |s|
    ensures |r| == |s|
    ensures forall j :: 0 <= j < |s| ==> r[j] == if q <= j < p then s[j + 1] else s[j]
  {
    s[..q] + s[q + 1..p + 1] + s[p..]
  }

  datatype Outcome = Outcome(ok: bool, words: seq<Word>, line: Text)

  /** One field that ends at p: the line after joining, where its digits start, and where they must end. */
  datatype Field = Field(line: Text, start: nat, end: nat)

  function FieldAt(line: Text, p: nat): (f: Field)
    requires 0 < p < |line|
    ensures |f.line| == |line| && f.start <= p && f.end <= p
    ensures forall j :: p <= j < |line| ==> f.line[j] == line[j]
  {
    var q := ScanBack(line, if line[p] == ',' then p - 1 else p);
    var line' := if q > 0 then Delete(line, q, p) else line;
    var q' := if q > 0 then ScanBack(line', q) else q;
    Field(line', if line'[q'] == ',' then q' + 1 else q', if q > 0 then p - 1 else p)
  }

  /** Parse the fields that end at p after done has been stored, with room for cap words in all: what is stored
      in the end, and whether all of the line was understood. */
  function ParseFrom(line: Text, p: int, done: seq<Word>, cap: nat): (r: Outcome)
    requires p < |line| && |done| <= cap
    ensures |r.words| <= cap && |r.line| == |line|
    decreases if p < 0 then 0 else p
  {
    if p <= 0 then Outcome(true, done, line)
    else
      var f := FieldAt(line, p);
      if |done| >= cap then Outcome(false, done, f.line)
      else
        var n := Strtoul(f.line, f.start, 16);
        if n.end != f.end then Outcome(false, done + [n.value], f.line)
        else ParseFrom(f.line, f.start - 1, done + [n.value], cap)
  }

  /** The in-place parser computes ParseFrom on every line whatsoever; in particular it ends on every line. */
  method Parse(line: array<char>, mask: Bitmask) returns (err: int)
    requires mask.Valid()
    modifies line, mask.maskp
    ensures var p := FindNewline(old(line[..]), 0);
            if p == -1 then err == -1 && line[..] == old(line[..]) && mask.maskp[..] == old(mask.maskp[..])
            else
              var r := ParseFrom(old(line[..]), p, [], mask.maskp.Length);
              && err == (if r.ok then 0 else -1)
              && line[..] == r.line
              && mask.maskp[..] == r.words + old(mask.maskp[..])[|r.words|..]
  {
    hide *;
    var p := FindNewline(line[..], 0);
    if p == -1 { return -1; }
    var i := 0;
    ghost var was, done := mask.maskp[..], [];
    ghost var want := ParseFrom(line[..], p, [], mask.maskp.Length);
    BeginParse(line[..], p, was);
    while p > 0
      invariant i == |done| && |was| == mask.maskp.Length
      invariant Parsing(want, line[..], p, done, was, mask.maskp[..])
      decreases p
    {
      ParseStep(want, line[..], p, done, was, mask.maskp[..]);
      var start, end := TakeField(line, p);
      if i >= mask.maskp.Length { return -1; }
      var n := Strtoul(line[..], start, 16);
      mask.maskp[i] := n.value;
      done := done + [n.value];
      i := i + 1;
      if n.end != end { return -1; }
      p := start as int - 1;
    }
    ParseEnd(want, line[..], p, done, was, mask.maskp[..]);
    return 0;
  }

  /** The fields behind p are stored, and what is left to do leads to the wanted outcome. */
  ghost predicate Parsing(want: Outcome, line: Text, p: int, done: seq<Word>, was: seq<Word>, words: seq<Word>) {
    && p < |line| && |done| <= |was| && words == done + was[|done|..]
    && want == ParseFrom(line, p, done, |was|)
  }

  lemma BeginParse(line: Text, p: int, was: seq<Word>)
    requires p < |line|
    ensures Parsing(ParseFrom(line, p, [], |was|), line, p, [], was, was)
  {
    hide ParseFrom;
  }

  lemma ParseStep(want: Outcome, line: Text, p: int, done: seq<Word>, was: seq<Word>, words: seq<Word>)
    requires Parsing(want, line, p, done, was, words) && p > 0
    ensures words == done + was[|done|..]
    ensures var f := FieldAt(line, p);
            && |f.line| == |line| && f.start <= p
            && (|done| >= |was| ==> want == Outcome(false, done, f.line))
            && (|done| < |was| ==>
                  var n := Strtoul(f.line, f.start, 16);
                  var stored := words[|done| := n.value];
                  && stored == (done + [n.value]) + was[|done| + 1..]
                  && if n.end != f.end then want == Outcome(false, done + [n.value], f.line)
                     else Parsing(want, f.line, f.start - 1, done + [n.value], was, stored))
  {
    hide Strtoul, FieldAt;
    if |done| < |was| { StoreNext(done, was, Strtoul(FieldAt(line, p).line, FieldAt(line, p).start, 16).value); }
  }

  lemma ParseEnd(want: Outcome, line: Text, p: int, done: seq<Word>, was: seq<Word>, words: seq<Word>)
    requires Parsing(want, line, p, done, was, words) && p <= 0
    ensures want == Outcome(true, done, line) && words == done + was[|done|..]
  {
  }

  lemma StoreNext(done: seq<Word>, was: seq<Word>, x: Word)
    requires |done| < |was|
    ensures (done + was[|done|..])[|done| := x] == (done + [x]) + was[|done| + 1..]
  {
  }

  /** The body of the scan up to the number: both backward walks and the deletion of the comma. */
  method TakeField(line: array<char>, p0: nat) returns (p: nat, oldp: nat)
    requires 0 < p0 < line.Length
    modifies line
    ensures Field(line[..], p, oldp) == FieldAt(old(line[..]), p0)
  {
    hide ScanBack, Delete;
    oldp := p0;
    p := WalkBack(line, if line[p0] == ',' then p0 - 1 else p0);
    if p > 0 {
      oldp := oldp - 1;
      MoveDown(line, p, oldp);
      p := WalkBack(line, p);
    }
    if line[p] == ',' { p := p + 1; }
  }

  method WalkBack(line: array<char>, from: nat) returns (p: nat)
    requires from < line.Length
    ensures p == ScanBack(line[..], from)
  {
    p := from;
    while p > 0 && line[p] != ','
      invariant p <= from
      invariant ScanBack(line[..], from) == ScanBack(line[..], p)
    {
      p := p - 1;
    }
  }

  method MoveDown(line: array<char>, q: nat, p: nat)
    requires q <= p && p + 1 < line.Length
    modifies line
    ensures line[..] == Delete(old(line[..]), q, p + 1)
  {
    for j := q to p + 1
      invariant forall i :: 0 <= i < line.Length ==> line[i] == if q <= i < j then old(line[i + 1]) else old(line[i])
    {
      line[j] := line[j + 1];
    }
  }
}
