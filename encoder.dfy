/** cstag_to_midsv (src/midsv/converter.py): the tokens of a cs tag are expanded into
    one MIDSV cell per reference base, an insertion sliding onto the token after it. */
module Encoder {
  import opened Strings
  import opened Tokenizer

  // ---------------------------------------------------------------------------
  // The splice pattern ([a-z]+)([0-9]+)([a-z]+), matched at the start
  // ---------------------------------------------------------------------------

  predicate IsLowerLetter(c: char) { 'a' <= c <= 'z' }

  function LetterRun(s: string): (n: nat)
    ensures n <= |s|
  {
    if s == [] || !IsLowerLetter(s[0]) then 0 else 1 + LetterRun(s[1..])
  }

  function DigitRun(s: string): (n: nat)
    ensures n <= |s|
  {
    if s == [] || !IsDigit(s[0]) then 0 else 1 + DigitRun(s[1..])
  }

  lemma {:induction false} LetterRunStops(s: string)
    ensures forall k :: 0 <= k < LetterRun(s) ==> IsLowerLetter(s[k])
  {
    if s != [] && IsLowerLetter(s[0]) {
      LetterRunStops(s[1..]);
    }
  }

  lemma {:induction false} DigitRunStops(s: string)
    ensures forall k :: 0 <= k < DigitRun(s) ==> IsDigit(s[k])
  {
    if s != [] && IsDigit(s[0]) {
      DigitRunStops(s[1..]);
    }
  }

  lemma {:induction false} LetterRunAppend(a: string, b: string)
    requires forall k :: 0 <= k < |a| ==> IsLowerLetter(a[k])
    requires b == [] || !IsLowerLetter(b[0])
    ensures LetterRun(a + b) == |a|
    decreases |a|
  {
    if a != [] {
      LetterRunAppend(a[1..], b);
      assert (a + b)[1..] == a[1..] + b;
    } else {
      assert a + b == b;
    }
  }

  lemma {:induction false} DigitRunAppend(a: string, b: string)
    requires AllDigits(a)
    requires b == [] || !IsDigit(b[0])
    ensures DigitRun(a + b) == |a|
    decreases |a|
  {
    if a != [] {
      DigitRunAppend(a[1..], b);
      assert (a + b)[1..] == a[1..] + b;
    } else {
      assert a + b == b;
    }
  }

  /** Python's re.match(r"([a-z]+)([0-9]+)([a-z]+)", s): the letter and digit classes are
      disjoint, so the greedy groups are the maximal runs and no backtracking can help. */
  function SpliceMatch(s: string): (m: Option<(string, string, string)>)
    ensures m.Some? ==> |m.value.0| >= 1 && |m.value.2| >= 1 && IsNumeral(m.value.1)
  {
    DigitRunStops(s[LetterRun(s)..]);
    var a := LetterRun(s);
    if a == 0 then None
    else
      var d := DigitRun(s[a..]);
      if d == 0 then None
      else
        var b := LetterRun(s[a + d..]);
        if b == 0 then None
        else Some((s[..a], s[a..a + d], s[a + d..a + d + b]))
  }

  /** The groups are lower-case letters, digits and lower-case letters, taken from the
      start of the string. */
  lemma SpliceMatchShape(s: string)
    requires SpliceMatch(s).Some?
    ensures var m := SpliceMatch(s).value;
      (forall k :: 0 <= k < |m.0| ==> IsLowerLetter(m.0[k]))
      && (forall k :: 0 <= k < |m.2| ==> IsLowerLetter(m.2[k]))
      && m.0 + m.1 + m.2 == s[..|m.0| + |m.1| + |m.2|]
  {
    var a := LetterRun(s);
    var d := DigitRun(s[a..]);
    LetterRunStops(s);
    LetterRunStops(s[a + d..]);
    var m := SpliceMatch(s).value;
    assert m.0 + m.1 + m.2 == s[..|m.0| + |m.1| + |m.2|];
  }

  /** The pattern finds exactly the letters, the number and the letters it is given. */
  lemma SpliceMatchOf(l: string, d: string, r: string)
    requires |l| >= 1 && forall k :: 0 <= k < |l| ==> IsLowerLetter(l[k])
    requires IsNumeral(d)
    requires |r| >= 1 && forall k :: 0 <= k < |r| ==> IsLowerLetter(r[k])
    ensures SpliceMatch(l + d + r) == Some((l, d, r))
  {
    var s := l + d + r;
    assert s == l + (d + r);
    LetterRunAppend(l, d + r);
    assert s[|l|..] == d + r;
    DigitRunAppend(d, r);
    assert s[|l| + |d|..] == r + [];
    LetterRunAppend(r, []);
    assert s[..|l|] == l;
    assert s[|l|..|l| + |d|] == d;
    assert s[|l| + |d|..|l| + |d| + |r|] == r;
  }

  // ---------------------------------------------------------------------------
  // Encoder: _process_match, _process_splice, _process_insertion, cstag_to_midsv
  // ---------------------------------------------------------------------------

  /** _process_match: an operation followed by n bases becomes n cells, each the
      operation and one base. */
  function MatchCells(cs: string): (cells: seq<string>)
    requires |cs| >= 1
    ensures |cells| == |cs| - 1
    ensures forall k :: 0 <= k < |cells| ==> cells[k] == [cs[0], cs[k + 1]]
  {
    seq(|cs| - 1, k requires 0 <= k < |cs| - 1 => [cs[0], cs[k + 1]])
  }

  /** The intron length a splice token carries, 0 when the pattern does not match. */
  function SpliceCount(cs: string): nat
    requires |cs| >= 1
  {
    match SpliceMatch(cs[1..])
    case None => 0
    case Some(m) => ParseNat(m.1)
  }

  /** _process_splice: as many "=N" cells as the intron is long. */
  function SpliceCells(cs: string): (cells: seq<string>)
    requires |cs| >= 1
    ensures |cells| == SpliceCount(cs)
    ensures forall k :: 0 <= k < |cells| ==> cells[k] == "=N"
  {
    Repeat("=N", SpliceCount(cs))
  }

  /** A splice token `~<letters><g><letters>` yields exactly g cells "=N"; the flanking
      dinucleotides are not emitted. */
  lemma SpliceCellsOf(l: string, d: string, r: string)
    requires |l| >= 1 && forall k :: 0 <= k < |l| ==> IsLowerLetter(l[k])
    requires IsNumeral(d)
    requires |r| >= 1 && forall k :: 0 <= k < |r| ==> IsLowerLetter(r[k])
    ensures SpliceCells("~" + l + d + r) == Repeat("=N", ParseNat(d))
  {
    assert ("~" + l + d + r)[1..] == l + d + r;
    SpliceMatchOf(l, d, r);
  }

  /** "+" + "|+".join(bases): each inserted base as its own "+b" unit, joined by '|'. */
  function InsertionItem(cs: string): (item: string)
    requires |cs| >= 2
  {
    Join(seq(|cs| - 1, k requires 0 <= k < |cs| - 1 => ['+', cs[k + 1]]), '|')
  }
  /** What an insertion does to the token after it (_process_insertion, lines 51-67):
      the insertion's cell, and the token that replaces the next one. */
  function Slide(item: string, next: string): (r: (string, string))
    requires |next| >= 1
    ensures |r.1| >= 1 && r.1[0] == next[0]
  {
    if next[0] == '*' then
      (item + "|" + next, "*")
    else if next[0] == '~' then
      var rewritten := match SpliceMatch(next[1..])
        case None => next
        case Some(m) => "~" + m.0 + IntToString(ParseNat(m.1) - 1) + m.2;
      (item + "|=N", rewritten)
    else
      var cut := Min(2, |next|);
      (item + "|" + next[..cut], [next[0]] + next[cut..])
  }

  predicate NonEmpty(toks: seq<string>)
  {
    forall k :: 0 <= k < |toks| ==> |toks[k]| >= 1
  }

  predicate IsInsertion(cs: string) { |cs| >= 2 && cs[0] == '+' }

  /** How many cells a token contributes once any insertion before it has taken its share. */
  function Width(cs: string): nat
    requires |cs| >= 1
  {
    if |cs| == 1 || cs[0] == '+' then 0
    else if cs[0] == '*' then 1
    else if cs[0] == '~' then SpliceCount(cs)
    else |cs| - 1
  }

  /** The cells of a token that is no insertion: a substitution is one cell, a splice its
      intron length in "=N" cells, a match or deletion one cell per base. */
  function Cells(cs: string): (cells: seq<string>)
    requires |cs| >= 2 && cs[0] != '+'
    ensures |cells| == Width(cs)
  {
    if cs[0] == '*' then [cs]
    else if cs[0] == '~' then SpliceCells(cs)
    else MatchCells(cs)
  }

  /** The cells cstag_to_midsv produces from a token list, before upper-casing: one token
      at a time, an insertion reading and rewriting the token after it. */
  function Encode(toks: seq<string>): seq<string>
    requires NonEmpty(toks)
    decreases |toks|
  {
    if toks == [] then []
    else
      var cs := toks[0];
      if |cs| == 1 then Encode(toks[1..])
      else if cs[0] == '+' then
        if |toks| == 1 then [InsertionItem(cs)]
        else
          var slid := Slide(InsertionItem(cs), toks[1]);
          [slid.0] + Encode([slid.1] + toks[2..])
      else Cells(cs) + Encode(toks[1..])
  }

  // The four ways the encoder steps over its first token.

  lemma EncodeSkip(toks: seq<string>)
    requires NonEmpty(toks) && toks != [] && |toks[0]| == 1
    ensures Encode(toks) == Encode(toks[1..])
  {
  }

  lemma EncodeLast(toks: seq<string>)
    requires NonEmpty(toks) && |toks| == 1 && IsInsertion(toks[0])
    ensures Encode(toks) == [InsertionItem(toks[0])]
  {
  }

  lemma EncodeSlide(toks: seq<string>)
    requires NonEmpty(toks) && |toks| >= 2 && IsInsertion(toks[0])
    ensures var slid := Slide(InsertionItem(toks[0]), toks[1]);
      Encode(toks) == [slid.0] + Encode([slid.1] + toks[2..])
  {
  }

  lemma EncodeOther(toks: seq<string>)
    requires NonEmpty(toks) && toks != [] && |toks[0]| >= 2 && toks[0][0] != '+'
    ensures Encode(toks) == Cells(toks[0]) + Encode(toks[1..])
  {
  }

  /** _process_insertion on the token list held in an array: returns the cells with the
      insertion's cell appended and rewrites the next token in place. */
  method ProcessInsertion(a: array<string>, i: int, cells: seq<string>) returns (cells': seq<string>)
    requires 0 <= i < a.Length && IsInsertion(a[i])
    requires forall k :: 0 <= k < a.Length ==> |a[k]| >= 1
    modifies a
    ensures i + 1 == a.Length ==> cells' == cells + [InsertionItem(old(a[i]))] && a[..] == old(a[..])
    ensures i + 1 < a.Length ==>
      var slid := Slide(InsertionItem(old(a[i])), old(a[i + 1]));
      cells' == cells + [slid.0] && a[..] == old(a[..])[i + 1 := slid.1]
  {
    var item := InsertionItem(a[i]);
    if i + 1 == a.Length {
      cells' := cells + [item];
      return;
    }
    var next := a[i + 1];
    ghost var slid := Slide(item, next);
    var op := next[0];
    if op == '*' {
      cells' := cells + [item + "|" + next];
      a[i + 1] := "*";
    } else if op == '~' {
      item := item + "|=N";
      cells' := cells + [item];
      var m := SpliceMatch(next[1..]);
      if m.Some? {
        a[i + 1] := [op] + m.value.0 + IntToString(ParseNat(m.value.1) - 1) + m.value.2;
        assert a[i + 1] == slid.1;
      }
    } else {
      item := item + "|" + next[..Min(2, |next|)];
      cells' := cells + [item];
      a[i + 1] := [op] + next[Min(2, |next|)..];
    }
    assert cells' == cells + [slid.0] && a[i + 1] == slid.1;
  }

  /** The MIDSV string of a cs tag: the cells upper-cased and joined by commas. */
  function Midsv(cstag: string): string
    requires WellPrefixed(cstag)
  {
    Join(UpperAll(Encode(Tokens(cstag))), ',')
  }

  /** The tokens after position i, once the token at i + 1 is rewritten. */
  lemma Rewritten(s: seq<string>, i: nat, v: string)
    requires i + 1 < |s|
    ensures s[i + 1 := v][i + 1..] == [v] + s[i..][2..]
  {
  }

  /** The insertion step seen through Encode: the cell it emits and the token it
      rewrites are the insertion's share of what the list owes. */
  method InsertToken(a: array<string>, i: int, cells: seq<string>) returns (cells': seq<string>)
    requires 0 <= i < a.Length && NonEmpty(a[..]) && IsInsertion(a[i])
    modifies a
    ensures NonEmpty(a[..]) && a[..i + 1] == old(a[..i + 1])
    ensures cells' + Encode(a[i + 1..]) == cells + Encode(old(a[i..]))
  {
    ghost var rest := a[i..];
    ghost var before := a[..];
    assert rest[0] == a[i];
    cells' := ProcessInsertion(a, i, cells);
    if i + 1 < a.Length {
      assert rest[1] == before[i + 1];
      EncodeSlide(rest);
      Rewritten(before, i, a[i + 1]);
    } else {
      EncodeLast(rest);
    }
  }

  /** The branches of cstag_to_midsv for a substitution, a splice (_process_splice) and
      a match or deletion (_process_match). */
  method OtherToken(cs: string, cells: seq<string>) returns (cells': seq<string>)
    requires |cs| >= 2 && cs[0] != '+'
    ensures cells' == cells + Cells(cs)
  {
    if cs[0] == '*' {
      cells' := cells + [cs];
    } else if cs[0] == '~' {
      cells' := cells + SpliceCells(cs);
    } else {
      cells' := cells + MatchCells(cs);
    }
  }

  /** One pass of the loop of cstag_to_midsv over the token at i: what the cells gain and
      the rewritten token list still owes add up to what the list owed before. */
  method EncodeToken(a: array<string>, i: int, cells: seq<string>) returns (cells': seq<string>)
    requires 0 <= i < a.Length && NonEmpty(a[..])
    modifies a
    ensures NonEmpty(a[..]) && a[..i + 1] == old(a[..i + 1])
    ensures cells' + Encode(a[i + 1..]) == cells + Encode(old(a[i..]))
  {
    var cs := a[i];
    ghost var rest := a[i..];
    assert rest[0] == cs && rest[1..] == a[i + 1..];
    if |cs| == 1 {
      EncodeSkip(rest);
      cells' := cells;
    } else if cs[0] == '+' {
      cells' := InsertToken(a, i, cells);
    } else {
      EncodeOther(rest);
      cells' := OtherToken(cs, cells);
      assert cells' + Encode(a[i + 1..]) == cells + (Cells(cs) + Encode(a[i + 1..]));
    }
  }

  /** cstag_to_midsv: tokens are copied into an array, which the insertion step rewrites
      while the loop walks over it. The cells of a match are kept one per base; joining
      them is what the source's single comma-joined entry for the token amounts to. */
  method CstagToMidsv(cstag: string) returns (midsv: string)
    requires WellPrefixed(cstag)
    ensures midsv == Midsv(cstag)
  {
    var split := SplitCstag(cstag);
    var toks := split.value;
    var a := new string[|toks|](k requires 0 <= k < |toks| => toks[k]);
    assert a[..] == toks;
    var cells: seq<string> := [];
    var i := 0;
    while i < a.Length
      invariant 0 <= i <= a.Length
      invariant NonEmpty(a[..])
      invariant cells + Encode(a[i..]) == Encode(toks)
    {
      cells := EncodeToken(a, i, cells);
      i := i + 1;
    }
    assert a[i..] == [];
    assert cells == Encode(toks);
    assert toks == Tokens(cstag);
    midsv := Join(UpperAll(cells), ',');
  }

  function Widths(toks: seq<string>): nat
    requires NonEmpty(toks)
  {
    if toks == [] then 0 else Width(toks[0]) + Widths(toks[1..])
  }

  /** Every insertion that is not last stands before a token that is no insertion and has
      a base for the insertion to slide onto, as in a cs tag minimap2 writes. */
  predicate Anchored(toks: seq<string>)
    requires NonEmpty(toks)
  {
    forall k :: 0 <= k < |toks| - 1 && IsInsertion(toks[k]) ==> toks[k + 1][0] != '+' && Width(toks[k + 1]) >= 1
  }

  predicate EndsInInsertion(toks: seq<string>)
  {
    toks != [] && IsInsertion(toks[|toks| - 1])
  }

  /** Sliding an insertion onto a splice takes one base off its intron. */
  lemma SlideSplice(item: string, next: string)
    requires |next| >= 1 && next[0] == '~' && SpliceCount(next) >= 1
    ensures Width(Slide(item, next).1) == Width(next) - 1
  {
    var m := SpliceMatch(next[1..]);
    SpliceMatchShape(next[1..]);
    var g := ParseNat(m.value.1);
    var d := NatToString(g - 1);
    var rewritten := "~" + m.value.0 + IntToString(g - 1) + m.value.2;
    assert rewritten[1..] == m.value.0 + d + m.value.2;
    SpliceMatchOf(m.value.0, d, m.value.2);
    ParseNatToString(g - 1);
  }

  /** Sliding an insertion takes exactly one cell's worth from the next token. */
  lemma SlideWidth(item: string, next: string)
    requires |next| >= 1 && next[0] != '+' && Width(next) >= 1
    ensures Width(Slide(item, next).1) == Width(next) - 1
  {
    if next[0] == '~' {
      SlideSplice(item, next);
    }
  }

  /** Replacing the first token by one that is no insertion keeps a list anchored. */
  lemma AnchoredRest(toks: seq<string>, first: string)
    requires NonEmpty(toks) && Anchored(toks) && |toks| >= 2
    requires |first| >= 1 && first[0] != '+'
    ensures NonEmpty([first] + toks[2..]) && Anchored([first] + toks[2..])
  {
    var rest := [first] + toks[2..];
    forall k | 0 <= k < |rest| - 1 && IsInsertion(rest[k])
      ensures rest[k + 1][0] != '+' && Width(rest[k + 1]) >= 1
    {
      assert rest[k] == toks[k + 1] && rest[k + 1] == toks[k + 2];
    }
  }

  lemma WidthsCons(t: string, rest: seq<string>)
    requires |t| >= 1 && NonEmpty(rest)
    ensures NonEmpty([t] + rest) && Widths([t] + rest) == Width(t) + Widths(rest)
  {
    assert ([t] + rest)[0] == t && ([t] + rest)[1..] == rest;
  }

  lemma WidthsRest(toks: seq<string>, first: string)
    requires NonEmpty(toks) && |toks| >= 2 && Width(toks[0]) == 0 && |first| >= 1
    ensures Widths([first] + toks[2..]) == Widths(toks) - Width(toks[1]) + Width(first)
    ensures EndsInInsertion([first] + toks[2..]) == (if |toks| == 2 then IsInsertion(first) else EndsInInsertion(toks))
  {
    var tail := toks[2..];
    assert NonEmpty(tail) by {
      forall k | 0 <= k < |tail| ensures |tail[k]| >= 1 { assert tail[k] == toks[k + 2]; }
    }
    assert toks == [toks[0]] + ([toks[1]] + tail);
    WidthsCons(toks[1], tail);
    WidthsCons(toks[0], [toks[1]] + tail);
    WidthsCons(first, tail);
    LastOfRest(toks, first);
  }

  /** The last token once the first two are replaced by one. */
  lemma LastOfRest(toks: seq<string>, first: string)
    requires |toks| >= 2
    ensures EndsInInsertion([first] + toks[2..]) == (if |toks| == 2 then IsInsertion(first) else EndsInInsertion(toks))
  {
    var rest := [first] + toks[2..];
    assert |rest| == |toks| - 1;
    if |toks| == 2 {
      assert rest[|rest| - 1] == first;
    } else {
      assert rest[|rest| - 1] == toks[2..][|toks| - 3] == toks[|toks| - 1];
    }
  }

  /** The token list after a slide is anchored when the one before it was, and holds
      one cell less. */
  lemma AnchoredSlide(toks: seq<string>)
    requires NonEmpty(toks) && Anchored(toks) && |toks| >= 2 && IsInsertion(toks[0])
    ensures var rest := [Slide(InsertionItem(toks[0]), toks[1]).1] + toks[2..];
      NonEmpty(rest) && Anchored(rest) && Widths(rest) == Widths(toks) - 1
      && EndsInInsertion(rest) == EndsInInsertion(toks)
  {
    var slid := Slide(InsertionItem(toks[0]), toks[1]);
    SlideWidth(InsertionItem(toks[0]), toks[1]);
    AnchoredRest(toks, slid.1);
    WidthsRest(toks, slid.1);
  }

  /** Dropping a first token that is no insertion keeps a list anchored. */
  lemma AnchoredTail(toks: seq<string>)
    requires NonEmpty(toks) && Anchored(toks) && toks != []
    ensures NonEmpty(toks[1..]) && Anchored(toks[1..])
    ensures |toks| > 1 ==> EndsInInsertion(toks[1..]) == EndsInInsertion(toks)
  {
    if |toks| > 1 {
      assert toks[1..][|toks| - 2] == toks[|toks| - 1];
    }
  }

  /** cstag_to_midsv emits one cell per matched or deleted base, one per substitution and
      g per splice of length g; an insertion adds a cell of its own only when it is the
      last token. */
  lemma {:induction false} EncodeCount(toks: seq<string>)
    requires NonEmpty(toks) && Anchored(toks)
    ensures |Encode(toks)| == Widths(toks) + (if EndsInInsertion(toks) then 1 else 0)
    decreases |toks|
  {
    if toks != [] {
      var cs := toks[0];
      if |cs| == 1 {
        AnchoredTail(toks);
        EncodeSkip(toks);
        EncodeCount(toks[1..]);
      } else if cs[0] != '+' {
        AnchoredTail(toks);
        EncodeOther(toks);
        EncodeCount(toks[1..]);
      } else if |toks| > 1 {
        AnchoredSlide(toks);
        EncodeSlide(toks);
        EncodeCount([Slide(InsertionItem(cs), toks[1]).1] + toks[2..]);
      } else {
        EncodeLast(toks);
      }
    }
  }

  // ---------------------------------------------------------------------------
  // The MIDSV string as a list of cells
  // ---------------------------------------------------------------------------

  predicate CommaFree(cells: seq<string>)
  {
    forall k :: 0 <= k < |cells| ==> ',' !in cells[k]
  }

  lemma InsertionItemAvoids(cs: string)
    requires |cs| >= 2 && ',' !in cs
    ensures ',' !in InsertionItem(cs)
  {
    var parts := seq(|cs| - 1, k requires 0 <= k < |cs| - 1 => ['+', cs[k + 1]]);
    forall k | 0 <= k < |parts| ensures ',' !in parts[k] {
      assert parts[k] == ['+', cs[k + 1]];
    }
    JoinAvoids(parts, '|', ',');
  }

  /** The rewritten splice token holds letters, digits and '-' only. */
  lemma SpliceRewriteAvoids(next: string)
    requires |next| >= 1 && SpliceMatch(next[1..]).Some?
    ensures var m := SpliceMatch(next[1..]).value;
      ',' !in "~" + m.0 + IntToString(ParseNat(m.1) - 1) + m.2
  {
    var m := SpliceMatch(next[1..]).value;
    SpliceMatchShape(next[1..]);
    var d := IntToString(ParseNat(m.1) - 1);
    var s := "~" + m.0 + d + m.2;
    forall k | 0 <= k < |s| ensures s[k] != ',' {
      if k == 0 {
      } else if k < 1 + |m.0| {
        assert s[k] == m.0[k - 1];
      } else if k < 1 + |m.0| + |d| {
        assert s[k] == d[k - 1 - |m.0|];
      } else {
        assert s[k] == m.2[k - 1 - |m.0| - |d|];
      }
    }
  }

  lemma SlideAvoids(item: string, next: string)
    requires |next| >= 1 && ',' !in item && ',' !in next
    ensures ',' !in Slide(item, next).0 && ',' !in Slide(item, next).1
  {
    if next[0] == '~' {
      if SpliceMatch(next[1..]).Some? {
        SpliceRewriteAvoids(next);
      }
    } else if next[0] != '*' {
      var cut := Min(2, |next|);
      assert ',' !in next[..cut] && ',' !in next[cut..];
    }
  }

  lemma CellsAvoid(cs: string)
    requires |cs| >= 2 && cs[0] != '+' && ',' !in cs
    ensures CommaFree(Cells(cs))
  {
    if cs[0] != '*' && cs[0] != '~' {
      forall k | 0 <= k < |Cells(cs)| ensures ',' !in Cells(cs)[k] {
        assert Cells(cs)[k] == [cs[0], cs[k + 1]];
      }
    }
  }

  lemma CommaFreeAppend(a: seq<string>, b: seq<string>)
    requires CommaFree(a) && CommaFree(b)
    ensures CommaFree(a + b)
  {
    forall k | 0 <= k < |a + b| ensures ',' !in (a + b)[k] {
      if k < |a| { assert (a + b)[k] == a[k]; } else { assert (a + b)[k] == b[k - |a|]; }
    }
  }

  /** Tokens without commas give cells without commas. */
  lemma {:induction false} EncodeAvoids(toks: seq<string>)
    requires NonEmpty(toks) && CommaFree(toks)
    ensures CommaFree(Encode(toks))
    decreases |toks|
  {
    if toks != [] {
      var cs := toks[0];
      assert ',' !in cs;
      if |cs| == 1 {
        EncodeSkip(toks);
        EncodeAvoids(toks[1..]);
      } else if cs[0] != '+' {
        EncodeOther(toks);
        CellsAvoid(cs);
        EncodeAvoids(toks[1..]);
        CommaFreeAppend(Cells(cs), Encode(toks[1..]));
      } else if |toks| == 1 {
        EncodeLast(toks);
        InsertionItemAvoids(cs);
      } else {
        EncodeSlide(toks);
        InsertionItemAvoids(cs);
        var slid := Slide(InsertionItem(cs), toks[1]);
        SlideAvoids(InsertionItem(cs), toks[1]);
        var rest := [slid.1] + toks[2..];
        assert CommaFree(rest) by {
          forall k | 0 <= k < |rest| ensures ',' !in rest[k] {
            if k > 0 { assert rest[k] == toks[k + 1]; }
          }
        }
        EncodeAvoids(rest);
        CommaFreeAppend([slid.0], Encode(rest));
      }
    }
  }

  lemma UpperAllAvoids(cells: seq<string>)
    requires CommaFree(cells)
    ensures CommaFree(UpperAll(cells))
  {
    forall k | 0 <= k < |cells| ensures ',' !in UpperAll(cells)[k] {
      var u := UpperAll(cells)[k];
      assert u == Upper(cells[k]);
      forall j | 0 <= j < |u| ensures u[j] != ',' {
        assert u[j] == UpperChar(cells[k][j]);
      }
    }
  }

  /** For a tag without commas, the MIDSV cells are the encoded cells upper-cased; a tag
      that yields no cells gives "" and so the single empty cell. */
  lemma MidsvCells(cstag: string)
    requires WellPrefixed(cstag) && ',' !in cstag
    ensures Split(Midsv(cstag), ',') == if Encode(Tokens(cstag)) == [] then [""] else UpperAll(Encode(Tokens(cstag)))
  {
    TokensAvoid(cstag, ',');
    var cells := Encode(Tokens(cstag));
    EncodeAvoids(Tokens(cstag));
    UpperAllAvoids(cells);
    if cells != [] {
      SplitJoin(UpperAll(cells), ',');
    }
  }

  /** The MIDSV of a tag minimap2 writes has one cell per reference base the tag covers,
      plus one for an insertion at the very end. */
  lemma MidsvLength(cstag: string)
    requires WellPrefixed(cstag) && ',' !in cstag
    requires Anchored(Tokens(cstag))
    ensures |Split(Midsv(cstag), ',')| == Max(1, Widths(Tokens(cstag)) + if EndsInInsertion(Tokens(cstag)) then 1 else 0)
  {
    MidsvCells(cstag);
    EncodeCount(Tokens(cstag));
  }

  // ---------------------------------------------------------------------------
  // The documented example of cstag_to_midsv
  // ---------------------------------------------------------------------------

  lemma MidsvExampleTokens()
    ensures WellPrefixed("cs:Z:=A+ttt=CC-aa=T*ag=TT")
    ensures Tokens("cs:Z:=A+ttt=CC-aa=T*ag=TT") == ["=A", "+ttt", "=CC", "-aa", "=T", "*ag", "=TT"]
  {
    var toks := ["=A", "+ttt", "=CC", "-aa", "=T", "*ag", "=TT"];
    TokenOf("=A");
    TokenOf("+ttt");
    TokenOf("=CC");
    TokenOf("-aa");
    TokenOf("=T");
    TokenOf("*ag");
    TokenOf("=TT");
    Concat7("=A", "+ttt", "=CC", "-aa", "=T", "*ag", "=TT");
    assert "cs:Z:=A+ttt=CC-aa=T*ag=TT" == "cs:Z:" + ("=A" + ("+ttt" + ("=CC" + ("-aa" + ("=T" + ("*ag" + "=TT"))))));
    TokensOfConcat(toks);
  }

  /** The three inserted bases become one unit each, and the match after them gives up
      its first base to the insertion's cell. */
  lemma MidsvExampleSlide()
    ensures InsertionItem("+ttt") == "+t|+t|+t"
    ensures Slide("+t|+t|+t", "=CC") == ("+t|+t|+t|=C", "=C")
  {
    var units := seq(3, k requires 0 <= k < 3 => ['+', "+ttt"[k + 1]]);
    assert units == ["+t", "+t", "+t"];
    JoinCons("+t", ["+t"], '|');
    JoinCons("+t", ["+t", "+t"], '|');
    assert "=CC"[..2] == "=C" && "=CC"[2..] == "C";
    assert "+t|+t|+t" + "|" + "=C" == "+t|+t|+t|=C";
    assert ['='] + "C" == "=C";
  }

  lemma MidsvExampleLast()
    ensures Encode(["*ag", "=TT"]) == ["*ag", "=T", "=T"]
  {
    var toks := ["*ag", "=TT"];
    assert MatchCells("=TT") == ["=T", "=T"];
    EncodeOther(toks);
    assert toks[1..] == ["=TT"];
    EncodeOther(toks[1..]);
    assert toks[2..] == [];
  }

  lemma MidsvExampleTail()
    ensures Encode(["=C", "-aa", "=T", "*ag", "=TT"]) == ["=C", "-a", "-a", "=T", "*ag", "=T", "=T"]
  {
    var toks := ["=C", "-aa", "=T", "*ag", "=TT"];
    assert MatchCells("=C") == ["=C"] && MatchCells("-aa") == ["-a", "-a"];
    assert MatchCells("=T") == ["=T"];
    EncodeOther(toks);
    EncodeOther(toks[1..]);
    EncodeOther(toks[2..]);
    assert toks[1..] == ["-aa", "=T", "*ag", "=TT"] && toks[2..] == ["=T", "*ag", "=TT"];
    assert toks[3..] == ["*ag", "=TT"];
    MidsvExampleLast();
  }

  /** The insertion and the tokens after it: the insertion takes the first base of "=CC". */
  lemma EncodeExampleInsertion()
    ensures NonEmpty(["+ttt", "=CC", "-aa", "=T", "*ag", "=TT"])
    ensures Encode(["+ttt", "=CC", "-aa", "=T", "*ag", "=TT"])
      == ["+t|+t|+t|=C", "=C", "-a", "-a", "=T", "*ag", "=T", "=T"]
  {
    var toks := ["+ttt", "=CC", "-aa", "=T", "*ag", "=TT"];
    EncodeSlide(toks);
    MidsvExampleSlide();
    assert [Slide(InsertionItem("+ttt"), "=CC").1] + toks[2..] == ["=C", "-aa", "=T", "*ag", "=TT"];
    MidsvExampleTail();
  }

  /** The cells of the documented example, before upper-casing. */
  lemma EncodeExample()
    ensures NonEmpty(["=A", "+ttt", "=CC", "-aa", "=T", "*ag", "=TT"])
    ensures Encode(["=A", "+ttt", "=CC", "-aa", "=T", "*ag", "=TT"])
      == ["=A", "+t|+t|+t|=C", "=C", "-a", "-a", "=T", "*ag", "=T", "=T"]
  {
    var toks := ["=A", "+ttt", "=CC", "-aa", "=T", "*ag", "=TT"];
    assert MatchCells("=A") == ["=A"];
    EncodeOther(toks);
    assert toks[1..] == ["+ttt", "=CC", "-aa", "=T", "*ag", "=TT"];
    EncodeExampleInsertion();
  }

  lemma MidsvExampleUpper()
    ensures UpperAll(["=A", "+t|+t|+t|=C", "=C", "-a", "-a", "=T", "*ag", "=T", "=T"])
      == ["=A", "+T|+T|+T|=C", "=C", "-A", "-A", "=T", "*AG", "=T", "=T"]
  {
    assert Upper("+t|+t|+t|=C") == "+T|+T|+T|=C";
    assert Upper("-a") == "-A" && Upper("*ag") == "*AG";
    assert Upper("=A") == "=A" && Upper("=C") == "=C" && Upper("=T") == "=T";
  }

  lemma MidsvExampleJoinTail()
    ensures Join(["-A", "=T", "*AG", "=T", "=T"], ',') == "-A,=T,*AG,=T,=T"
  {
    JoinCons("=T", ["=T"], ',');
    assert "=T" + ([','] + "=T") == "=T,=T";
    JoinCons("*AG", ["=T", "=T"], ',');
    assert "*AG" + ([','] + "=T,=T") == "*AG,=T,=T";
    JoinCons("=T", ["*AG", "=T", "=T"], ',');
    assert "=T" + ([','] + "*AG,=T,=T") == "=T,*AG,=T,=T";
    JoinCons("-A", ["=T", "*AG", "=T", "=T"], ',');
    assert "-A" + ([','] + "=T,*AG,=T,=T") == "-A,=T,*AG,=T,=T";
  }

  lemma MidsvExampleJoinInner()
    ensures Join(["+T|+T|+T|=C", "=C", "-A"], ',') == "+T|+T|+T|=C,=C,-A"
  {
    JoinCons("=C", ["-A"], ',');
    assert "=C" + ([','] + "-A") == "=C,-A";
    JoinCons("+T|+T|+T|=C", ["=C", "-A"], ',');
    assert "+T|+T|+T|=C" + ([','] + "=C,-A") == "+T|+T|+T|=C,=C,-A";
  }

  lemma MidsvExampleJoinHead()
    ensures Join(["=A", "+T|+T|+T|=C", "=C", "-A"], ',') == "=A,+T|+T|+T|=C,=C,-A"
  {
    MidsvExampleJoinInner();
    JoinCons("=A", ["+T|+T|+T|=C", "=C", "-A"], ',');
    assert "=A" + ([','] + "+T|+T|+T|=C,=C,-A") == "=A,+T|+T|+T|=C,=C,-A";
  }

  lemma MidsvExampleJoin()
    ensures Join(["=A", "+T|+T|+T|=C", "=C", "-A", "-A", "=T", "*AG", "=T", "=T"], ',')
      == "=A,+T|+T|+T|=C,=C,-A,-A,=T,*AG,=T,=T"
  {
    MidsvExampleJoinHead();
    MidsvExampleJoinTail();
    JoinAppend(["=A", "+T|+T|+T|=C", "=C", "-A"], ["-A", "=T", "*AG", "=T", "=T"], ',');
    assert ["=A", "+T|+T|+T|=C", "=C", "-A"] + ["-A", "=T", "*AG", "=T", "=T"] == ["=A", "+T|+T|+T|=C", "=C", "-A", "-A", "=T", "*AG", "=T", "=T"];
    assert "=A,+T|+T|+T|=C,=C,-A" + [','] + "-A,=T,*AG,=T,=T" == "=A,+T|+T|+T|=C,=C,-A,-A,=T,*AG,=T,=T";
  }

  /** The documented example of cstag_to_midsv: an insertion of three bases joined to the
      match after it, a deletion of two, a substitution, and matches. */
  lemma CstagToMidsvExample()
    ensures WellPrefixed("cs:Z:=A+ttt=CC-aa=T*ag=TT")
    ensures Midsv("cs:Z:=A+ttt=CC-aa=T*ag=TT") == "=A,+T|+T|+T|=C,=C,-A,-A,=T,*AG,=T,=T"
  {
    MidsvExampleTokens();
    EncodeExample();
    MidsvExampleUpper();
    MidsvExampleJoin();
  }
}
