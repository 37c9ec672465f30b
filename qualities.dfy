/** qual_to_qscore (src/midsv/converter.py): the read's QUAL string, Phred+33 as in
    section 1.4 of the SAM format specification (SAMv1), re-aligned to the MIDSV cells. */
module Qualities {
  import opened Strings

  // ---------------------------------------------------------------------------
  // Quality re-alignment: ascii_to_phred, qual_to_qscore
  // ---------------------------------------------------------------------------

  /** ascii_to_phred: the Phred score a Phred+33 character stands for, as a decimal string. */
  function Phred(c: char): string
  {
    IntToString(c as int - 33)
  }

  /** A score is written with digits and a sign only: it holds no ',' and no '|'. */
  lemma PhredClean(c: char)
    ensures Count(Phred(c), ',') == 0 && Count(Phred(c), '|') == 0
  {
    var s := Phred(c);
    assert forall k :: 0 <= k < |s| ==> IsDigit(s[k]) || s[k] == '-';
    CountNone(s, ',');
    CountNone(s, '|');
  }

  /** A printable quality character reads back as its score: int(ascii_to_phred(c)) == ord(c) - 33. */
  lemma PhredValue(c: char)
    requires '!' <= c
    ensures IsNumeral(Phred(c)) && ParseNat(Phred(c)) == c as int - 33
  {
    ParseNatToString(c as int - 33);
  }

  /** str.startswith for a prefix of one character. */
  predicate Marked(cell: string, c: char)
  {
    |cell| >= 1 && cell[0] == c
  }

  lemma MarkedStartsWith(cell: string, c: char)
    ensures Marked(cell, c) <==> StartsWith(cell, [c])
  {
    if |cell| >= 1 {
      assert cell[..1][0] == cell[0];
    }
  }

  /** A cell that stands for no read base: a deletion or an intron base. */
  predicate IsGap(cell: string)
  {
    Marked(cell, '-') || cell == "=N"
  }

  function Parts(cell: string): seq<string>
  {
    Split(cell, '|')
  }

  /** How many quality characters a cell consumes: none for a gap, one per inserted base
      and one for the anchor unless it is a gap, one for any other cell. */
  function Need(cell: string): nat
  {
    if IsGap(cell) then 0
    else if Marked(cell, '+') then
      var p := Parts(cell);
      |p| - 1 + (if IsGap(p[|p| - 1]) then 0 else 1)
    else 1
  }

  function Total(cells: seq<string>): nat
  {
    if cells == [] then 0 else Need(cells[0]) + Total(cells[1..])
  }

  /** The scores of the n quality characters from idx on, each followed by '|'. */
  function PipedScores(qual: string, idx: nat, n: nat): string
    requires idx + n <= |qual|
    decreases n
  {
    if n == 0 then "" else PipedScores(qual, idx, n - 1) + (Phred(qual[idx + n - 1]) + "|")
  }

  /** The scores of the n quality characters from idx on, one per character, in order. */
  function Phreds(qual: string, idx: nat, n: nat): (scores: seq<string>)
    requires idx + n <= |qual|
    ensures |scores| == n
    ensures forall i :: 0 <= i < n ==> scores[i] == Phred(qual[idx + i])
    decreases n
  {
    if n == 0 then [] else Phreds(qual, idx, n - 1) + [Phred(qual[idx + n - 1])]
  }

  /** The score entry of one cell, reading the quality string from idx. An insertion cell
      scores its n inserted bases and then its last part from qual[idx + n]; a trailing
      one-base insertion ("+T", no anchor) is thereby scored from its own base. */
  function Entry(qual: string, idx: nat, cell: string): string
    requires idx + Need(cell) <= |qual|
  {
    if IsGap(cell) then "-1"
    else if Marked(cell, '+') then
      var n := |Parts(cell)| - 1;
      PipedScores(qual, idx, n) + (if IsGap(Parts(cell)[n]) then "-1" else Phred(qual[idx + n]))
    else Phred(qual[idx])
  }

  /** The score entries of a list of cells, the quality string read from idx on. */
  function Scores(qual: string, cells: seq<string>, idx: nat): (entries: seq<string>)
    requires idx + Total(cells) <= |qual|
    ensures |entries| == |cells|
    decreases |cells|
  {
    if cells == [] then []
    else [Entry(qual, idx, cells[0])] + Scores(qual, cells[1..], idx + Need(cells[0]))
  }

  /** The QSCORE string qual_to_qscore returns. */
  function Qscore(qual: string, midsv: string): string
    requires Total(Split(midsv, ',')) <= |qual|
  {
    Join(Scores(qual, Split(midsv, ','), 0), ',')
  }

  /** The first entry of a list, and what the rest of the list still reads. */
  lemma ScoresUnfold(qual: string, cells: seq<string>, idx: nat)
    requires cells != [] && idx + Total(cells) <= |qual|
    ensures idx + Need(cells[0]) + Total(cells[1..]) <= |qual|
    ensures Scores(qual, cells, idx) == [Entry(qual, idx, cells[0])] + Scores(qual, cells[1..], idx + Need(cells[0]))
  {
  }

  /** The loop over the inserted bases of an insertion cell: one score and '|' each. */
  method InsertedScores(qual: string, idx: nat, n: nat) returns (insertion: string)
    requires idx + n <= |qual|
    ensures insertion == PipedScores(qual, idx, n)
  {
    insertion := "";
    var j := idx;
    while j < idx + n
      invariant idx <= j <= idx + n
      invariant insertion == PipedScores(qual, idx, j - idx)
    {
      insertion := insertion + (Phred(qual[j]) + "|");
      j := j + 1;
    }
  }

  /** The insertion branch of qual_to_qscore: one score and '|' per inserted base, then
      the score of the last part, or "-1" when it is a gap; the index ends one short of
      the next cell's. The last part is scored from qual[idx + n], the character after the
      n inserted bases (ScoresAsWritten has the index the code reads). */
  method InsertionEntry(qual: string, idx: nat, tag: string) returns (entry: string, i: int)
    requires !IsGap(tag) && Marked(tag, '+')
    requires idx + Need(tag) <= |qual|
    ensures entry == Entry(qual, idx, tag) && i == idx + Need(tag) - 1
  {
    i := idx;
    var parts := Split(tag, '|');
    var numInsertion := |parts| - 1;
    var insertion := InsertedScores(qual, idx, numInsertion);
    if IsGap(parts[|parts| - 1]) {
      insertion := insertion + "-1";
      i := i - 1;
    } else {
      insertion := insertion + Phred(qual[idx + numInsertion]);
    }
    entry := insertion;
    i := i + numInsertion;
  }

  // ---------------------------------------------------------------------------
  // qual_to_qscore as written
  // ---------------------------------------------------------------------------

  /** An insertion cell with no inserted base before its last part, such as "+T": the
      cell a one-base insertion at the very end of the cs tag becomes. */
  predicate IsBareInsertion(cell: string)
  {
    !IsGap(cell) && Marked(cell, '+') && |Parts(cell)| == 1
  }

  /** One entry in front of what the rest of the loop produces, or its failure. */
  function Cons(entry: string, rest: Option<seq<string>>): (r: Option<seq<string>>)
    ensures r.Some? <==> rest.Some?
    ensures r.Some? ==> r.value == [entry] + rest.value
  {
    match rest
    case None => None
    case Some(entries) => Some([entry] + entries)
  }

  /** The loop of qual_to_qscore as written, over the cells from idx on, where j is the
      variable of the inner loop as an earlier cell left it (None while it is unbound).
      The last part of an insertion cell is scored from qual[j + 1]. A cell with no
      inserted base does not run the inner loop, so it reads whatever an earlier
      insertion cell left in j, or fails on the unbound variable. None stands for both
      that failure and a read past the end of QUAL. */
  function ScoresAsWritten(qual: string, cells: seq<string>, idx: nat, j: Option<nat>): (r: Option<seq<string>>)
    ensures r.Some? ==> |r.value| == |cells|
    decreases |cells|
  {
    if cells == [] then Some([])
    else
      var cell := cells[0];
      if IsGap(cell) then Cons("-1", ScoresAsWritten(qual, cells[1..], idx, j))
      else if Marked(cell, '+') then
        var n := |Parts(cell)| - 1;
        var j' := if n > 0 then Some(idx + n - 1) else j;
        if idx + n > |qual| then None
        else if IsGap(Parts(cell)[n]) then
          Cons(PipedScores(qual, idx, n) + "-1", ScoresAsWritten(qual, cells[1..], idx + n, j'))
        else if j'.None? || j'.value + 1 >= |qual| then None
        else
          Cons(PipedScores(qual, idx, n) + Phred(qual[j'.value + 1]), ScoresAsWritten(qual, cells[1..], idx + n + 1, j'))
      else if idx >= |qual| then None
      else Cons(Phred(qual[idx]), ScoresAsWritten(qual, cells[1..], idx + 1, j))
  }

  /** qual_to_qscore as written: the QSCORE string, or None where the code raises. */
  function QscoreAsWritten(qual: string, midsv: string): (r: Option<string>)
    ensures r.Some? <==> ScoresAsWritten(qual, Split(midsv, ','), 0, None).Some?
  {
    match ScoresAsWritten(qual, Split(midsv, ','), 0, None)
    case None => None
    case Some(entries) => Some(Join(entries, ','))
  }

  /** The loop variable j after the cell at idx: the last index of its inserted bases
      when it has any, and otherwise what it was. */
  function NextJ(cell: string, idx: nat, j: Option<nat>): Option<nat>
  {
    if !IsGap(cell) && Marked(cell, '+') && |Parts(cell)| > 1 then Some(idx + |Parts(cell)| - 2) else j
  }

  /** One cell of the loop as written, when it is no bare insertion: its entry is the
      model's, or the read runs past the end of QUAL. */
  lemma AsWrittenStep(qual: string, cells: seq<string>, idx: nat, j: Option<nat>)
    requires cells != [] && !IsBareInsertion(cells[0]) && idx <= |qual|
    ensures idx + Need(cells[0]) > |qual| ==> ScoresAsWritten(qual, cells, idx, j) == None
    ensures idx + Need(cells[0]) <= |qual| ==>
      ScoresAsWritten(qual, cells, idx, j)
      == Cons(Entry(qual, idx, cells[0]), ScoresAsWritten(qual, cells[1..], idx + Need(cells[0]), NextJ(cells[0], idx, j)))
  {
    var cell := cells[0];
    if !IsGap(cell) && Marked(cell, '+') {
      AsWrittenInsertion(qual, cells, idx, j);
    }
  }

  /** AsWrittenStep for an insertion cell with inserted bases: j ends on the last of
      them, so qual[j + 1] is the character right after them. */
  lemma AsWrittenInsertion(qual: string, cells: seq<string>, idx: nat, j: Option<nat>)
    requires cells != [] && !IsGap(cells[0]) && Marked(cells[0], '+') && |Parts(cells[0])| > 1
    ensures idx + Need(cells[0]) > |qual| ==> ScoresAsWritten(qual, cells, idx, j) == None
    ensures idx + Need(cells[0]) <= |qual| ==>
      ScoresAsWritten(qual, cells, idx, j)
      == Cons(Entry(qual, idx, cells[0]), ScoresAsWritten(qual, cells[1..], idx + Need(cells[0]), NextJ(cells[0], idx, j)))
  {
    var n := |Parts(cells[0])| - 1;
    assert NextJ(cells[0], idx, j) == Some(idx + n - 1);
  }

  /** Without a bare insertion cell, the code as written and the model agree on every
      input: the same entries when QUAL covers the cells, and a failure (IndexError)
      exactly when it does not. */
  lemma {:induction false} ScoresAsWrittenAgrees(qual: string, cells: seq<string>, idx: nat, j: Option<nat>)
    requires idx <= |qual|
    requires forall k :: 0 <= k < |cells| ==> !IsBareInsertion(cells[k])
    ensures ScoresAsWritten(qual, cells, idx, j) == if idx + Total(cells) <= |qual| then Some(Scores(qual, cells, idx)) else None
    decreases |cells|
  {
    if cells != [] {
      var rest := cells[1..];
      assert Total(cells) == Need(cells[0]) + Total(rest);
      assert forall k :: 0 <= k < |rest| ==> !IsBareInsertion(rest[k]) by {
        forall k | 0 <= k < |rest| ensures !IsBareInsertion(rest[k]) {
          assert rest[k] == cells[k + 1];
        }
      }
      AsWrittenStep(qual, cells, idx, j);
      var next := idx + Need(cells[0]);
      if next <= |qual| {
        ScoresAsWrittenAgrees(qual, rest, next, NextJ(cells[0], idx, j));
        if idx + Total(cells) <= |qual| {
          ScoresUnfold(qual, cells, idx);
          var e, tail := Entry(qual, idx, cells[0]), Scores(qual, rest, next);
          assert Cons(e, Some(tail)) == Some([e] + tail);
        } else {
          assert ScoresAsWritten(qual, rest, next, NextJ(cells[0], idx, j)) == None;
        }
      }
    } else {
      assert Scores(qual, cells, idx) == [];
    }
  }

  /** The MIDSV string version: qual_to_qscore as written raises or returns the model's
      QSCORE, and the two agree whenever no cell is a bare insertion. */
  lemma QscoreAsWrittenAgrees(qual: string, midsv: string)
    requires forall k :: 0 <= k < |Split(midsv, ',')| ==> !IsBareInsertion(Split(midsv, ',')[k])
    ensures QscoreAsWritten(qual, midsv).Some? <==> Total(Split(midsv, ',')) <= |qual|
    ensures QscoreAsWritten(qual, midsv).Some? ==> QscoreAsWritten(qual, midsv).value == Qscore(qual, midsv)
  {
    ScoresAsWrittenAgrees(qual, Split(midsv, ','), 0, None);
  }

  lemma ExampleCells()
    ensures Split("=A,+T|-A,-A,=A", ',') == ["=A", "+T|-A", "-A", "=A"]
  {
    var cells := ["=A", "+T|-A", "-A", "=A"];
    assert Join(cells, ',') == "=A,+T|-A,-A,=A";
    assert forall k :: 0 <= k < |cells| ==> ',' !in cells[k];
    SplitJoin(cells, ',');
  }

  /** The entries of a list with a first cell, and what that list consumes. */
  lemma ScoresCons(qual: string, c: string, rest: seq<string>, idx: nat)
    requires idx + Need(c) + Total(rest) <= |qual|
    ensures Total([c] + rest) == Need(c) + Total(rest)
    ensures Scores(qual, [c] + rest, idx) == [Entry(qual, idx, c)] + Scores(qual, rest, idx + Need(c))
  {
    assert ([c] + rest)[0] == c && ([c] + rest)[1..] == rest;
  }

  /** A match cell such as "=A" consumes one character and is scored from it. */
  lemma PlainEntry(qual: string, idx: nat, cell: string)
    requires idx < |qual| && |cell| == 2 && cell[0] == '=' && cell[1] != 'N'
    ensures !IsGap(cell) && !Marked(cell, '+') && Need(cell) == 1
    ensures Entry(qual, idx, cell) == Phred(qual[idx])
  {
    assert cell != "=N" by { assert cell[1] != "=N"[1]; }
  }

  /** A deletion cell such as "-A" consumes nothing and scores -1. */
  lemma GapEntry(qual: string, idx: nat, cell: string)
    requires idx <= |qual| && |cell| >= 1 && cell[0] == '-'
    ensures IsGap(cell) && Need(cell) == 0 && Entry(qual, idx, cell) == "-1"
  {
  }

  /** The insertion anchored on a deletion: one score and then -1. */
  lemma ExampleInsertion()
    ensures !IsGap("+T|-A") && Marked("+T|-A", '+') && Need("+T|-A") == 1
    ensures Entry("@0@", 1, "+T|-A") == "15|-1"
  {
    PhredExamples();
    assert "@0@"[1] == '0';
    assert IndexOf("+T|-A", '|') == 2 && "+T|-A"[..2] == "+T" && "+T|-A"[3..] == "-A";
    assert IndexOf("-A", '|') == 2;
    assert Parts("+T|-A") == ["+T", "-A"];
    assert IsGap("-A");
  }

  /** The last two cells of the worked example: a deletion and a match read from idx 2. */
  lemma ExampleScoresTail()
    ensures Total(["-A", "=A"]) == 1
    ensures Scores("@0@", ["-A", "=A"], 2) == ["-1", "31"]
  {
    var q := "@0@";
    PhredExamples();
    assert q[2] == '@';
    PlainEntry(q, 2, "=A");
    ScoresCons(q, "=A", [], 2);
    assert ["=A"] + [] == ["=A"];
    GapEntry(q, 2, "-A");
    ScoresCons(q, "-A", ["=A"], 2);
  }

  /** The worked example from the insertion cell on, read from idx 1. */
  lemma ExampleScoresMid()
    ensures Total(["+T|-A", "-A", "=A"]) == 2
    ensures Scores("@0@", ["+T|-A", "-A", "=A"], 1) == ["15|-1", "-1", "31"]
  {
    ExampleScoresTail();
    ExampleInsertion();
    ScoresCons("@0@", "+T|-A", ["-A", "=A"], 1);
  }

  /** The first cell of the worked example, a match scored from '@'. */
  lemma ExampleHead()
    ensures Need("=A") == 1 && Entry("@0@", 0, "=A") == "31"
  {
    PhredExamples();
    assert "@0@"[0] == '@';
    PlainEntry("@0@", 0, "=A");
  }

  lemma ExampleScores()
    ensures Total(["=A", "+T|-A", "-A", "=A"]) == 3
    ensures Scores("@0@", ["=A", "+T|-A", "-A", "=A"], 0) == ["31", "15|-1", "-1", "31"]
  {
    var rest := ["+T|-A", "-A", "=A"];
    ExampleScoresMid();
    ExampleHead();
    ScoresCons("@0@", "=A", rest, 0);
    assert ["=A"] + rest == ["=A", "+T|-A", "-A", "=A"];
    assert ["31"] + ["15|-1", "-1", "31"] == ["31", "15|-1", "-1", "31"];
  }

  lemma ExampleJoin()
    ensures Join(["31", "15|-1", "-1", "31"], ',') == "31,15|-1,-1,31"
  {
    JoinCons("-1", ["31"], ',');
    assert "-1" + ([','] + "31") == "-1,31";
    JoinCons("15|-1", ["-1", "31"], ',');
    assert "15|-1" + ([','] + "-1,31") == "15|-1,-1,31";
    JoinCons("31", ["15|-1", "-1", "31"], ',');
    assert "31" + ([','] + "15|-1,-1,31") == "31,15|-1,-1,31";
  }

  /** A worked example of qual_to_qscore: a match, an insertion anchored on a deletion,
      a deletion and a match read three quality characters; both gaps score -1. */
  lemma QualToQscoreExample()
    ensures Split("=A,+T|-A,-A,=A", ',') == ["=A", "+T|-A", "-A", "=A"]
    ensures Total(["=A", "+T|-A", "-A", "=A"]) == 3
    ensures Qscore("@0@", "=A,+T|-A,-A,=A") == "31,15|-1,-1,31"
  {
    var midsv := "=A,+T|-A,-A,=A";
    ExampleCells();
    ExampleScores();
    var entries := ["31", "15|-1", "-1", "31"];
    assert Scores("@0@", Split(midsv, ','), 0) == entries;
    ExampleJoin();
  }

  /** The scores of the quality characters the examples below use. */
  lemma PhredExamples()
    ensures Phred('@') == "31" && Phred('0') == "15" && Phred('!') == "0"
  {
    assert NatToString(31) == NatToString(3) + [DigitChar(1)];
    assert NatToString(15) == NatToString(1) + [DigitChar(5)];
  }

  lemma BareExampleCells()
    ensures Split("=A,+T", ',') == ["=A", "+T"]
    ensures Parts("=A") == ["=A"] && Parts("+T") == ["+T"]
  {
    var cells := ["=A", "+T"];
    assert Join(cells, ',') == "=A,+T";
    SplitJoin(cells, ',');
    assert IndexOf("=A", '|') == 2;
    assert IndexOf("+T", '|') == 2;
  }

  lemma StaleExampleCells()
    ensures Parts("+G|=A") == ["+G", "=A"] && Parts("+T") == ["+T"]
  {
    assert IndexOf("+G|=A", '|') == 2;
    assert "+G|=A"[..2] == "+G" && "+G|=A"[3..] == "=A";
    assert IndexOf("=A", '|') == 2;
    assert IndexOf("+T", '|') == 2;
  }

  /** The cell "+T" alone: no gap, one part, one quality character. */
  lemma BareCell(qual: string, idx: nat)
    requires idx < |qual|
    ensures !IsGap("+T") && Marked("+T", '+') && Parts("+T") == ["+T"] && Need("+T") == 1
    ensures Entry(qual, idx, "+T") == Phred(qual[idx])
  {
    assert IndexOf("+T", '|') == 2;
    assert "+T" != "=N" by { assert "+T"[0] != "=N"[0]; }
    assert PipedScores(qual, idx, 0) == "";
  }

  /** The bare insertion "+T": no gap, one quality character, scored from its own. */
  lemma BareEntry(qual: string, idx: nat)
    requires idx < |qual|
    ensures !IsGap("+T") && Marked("+T", '+') && Need("+T") == 1
    ensures Entry(qual, idx, "+T") == Phred(qual[idx])
    ensures Scores(qual, ["+T"], idx) == [Phred(qual[idx])]
  {
    BareCell(qual, idx);
    assert ["+T"] + [] == ["+T"];
    ScoresCons(qual, "+T", [], idx);
    var x := Phred(qual[idx]);
    assert [x] + [] == [x];
  }

  /** The bare insertion "+T" as written: scored from qual[j + 1] whatever idx is. */
  lemma BareAsWritten(qual: string, idx: nat, j: Option<nat>)
    requires idx < |qual|
    ensures ScoresAsWritten(qual, ["+T"], idx, j)
      == if j.Some? && j.value + 1 < |qual| then Some([Phred(qual[j.value + 1])]) else None
  {
    BareCell(qual, idx);
    assert Parts("+T")[0] == "+T";
    assert ["+T"][1..] == [];
    assert PipedScores(qual, idx, 0) == "";
    assert ScoresAsWritten(qual, ["+T"][1..], idx + 1, j) == Some([]);
    if j.Some? && j.value + 1 < |qual| {
      assert PipedScores(qual, idx, 0) + Phred(qual[j.value + 1]) == Phred(qual[j.value + 1]);
      assert ScoresAsWritten(qual, ["+T"], idx, j)
        == Cons(PipedScores(qual, idx, 0) + Phred(qual[j.value + 1]), ScoresAsWritten(qual, ["+T"][1..], idx + 1, j));
      var x := Phred(qual[j.value + 1]);
      assert [x] + [] == [x];
      assert Cons(x, Some([])) == Some([x]);
    }
  }

  /** The one-base insertion after a match: scored from '0' in the model. */
  lemma BareScores()
    ensures Total(["=A", "+T"]) == 2
    ensures Scores("@0", ["=A", "+T"], 0) == ["31", "15"]
  {
    PhredExamples();
    BareEntry("@0", 1);
    assert "@0"[0] == '@' && "@0"[1] == '0';
    ScoresCons("@0", "+T", [], 1);
    assert ["+T"] + [] == ["+T"];
    PlainEntry("@0", 0, "=A");
    ScoresCons("@0", "=A", ["+T"], 0);
  }

  /** The same cells as written: the match leaves j unbound, so "+T" fails. */
  lemma BareFailsAsWritten()
    ensures ScoresAsWritten("@0", ["=A", "+T"], 0, None) == None
  {
    PlainEntry("@0", 0, "=A");
    BareEntry("@0", 1);
    BareAsWritten("@0", 1, None);
    var cells := ["=A", "+T"];
    assert cells[1..] == ["+T"];
    assert ScoresAsWritten("@0", cells, 0, None) == Cons(Phred('@'), ScoresAsWritten("@0", ["+T"], 1, None));
  }

  /** The cells "=A,+T" (the cs tag cs:Z:=A+t) with QUAL "@0": the code as written reads
      the unbound j, where the model scores the inserted T from '0'. */
  lemma QscoreAsWrittenCounterexample()
    ensures QscoreAsWritten("@0", "=A,+T") == None
    ensures Qscore("@0", "=A,+T") == "31,15"
  {
    BareExampleCells();
    BareFailsAsWritten();
    BareScores();
    JoinCons("31", ["15"], ',');
    assert "31" + ([','] + "15") == "31,15";
  }

  /** The first cell of the stale-anchor example: two characters, "31|15". */
  lemma StaleHead()
    ensures !IsGap("+G|=A") && Marked("+G|=A", '+') && !IsGap("=A") && Need("+G|=A") == 2
    ensures Entry("@0!", 0, "+G|=A") == "31|15"
  {
    StaleExampleCells();
    PhredExamples();
    assert "@0!"[0] == '@' && "@0!"[1] == '0';
    assert PipedScores("@0!", 0, 1) == "31|";
    assert "=A" != "=N" by { assert "=A"[1] != "=N"[1]; }
    assert "31|" + "15" == "31|15";
  }

  /** The stale-anchor example as written: the second cell reads qual[j + 1] == qual[1]. */
  lemma StaleAsWritten()
    ensures ScoresAsWritten("@0!", ["+G|=A", "+T"], 0, None) == Some(["31|15", "15"])
  {
    StaleHead();
    StaleExampleCells();
    PhredExamples();
    BareAsWritten("@0!", 2, Some(0));
    assert "@0!"[1] == '0';
    var cells := ["+G|=A", "+T"];
    assert cells[1..] == ["+T"];
    assert PipedScores("@0!", 0, 1) + Phred("@0!"[1]) == "31|15";
    assert ScoresAsWritten("@0!", cells, 0, None) == Cons("31|15", ScoresAsWritten("@0!", ["+T"], 2, Some(0)));
    assert ["31|15"] + ["15"] == ["31|15", "15"];
  }

  /** The stale-anchor example in the model: the second cell reads qual[2]. */
  lemma StaleScores()
    ensures Total(["+G|=A", "+T"]) == 3
    ensures Scores("@0!", ["+G|=A", "+T"], 0) == ["31|15", "0"]
  {
    StaleHead();
    PhredExamples();
    BareEntry("@0!", 2);
    assert "@0!"[2] == '!';
    ScoresCons("@0!", "+T", [], 2);
    assert ["+T"] + [] == ["+T"];
    ScoresCons("@0!", "+G|=A", ["+T"], 0);
  }

  /** The cells "+G|=A,+T" with QUAL "@0!": the first cell leaves j at 0, so the code as
      written scores the second from qual[1], a character the first cell has already
      consumed, instead of qual[2]. */
  lemma StaleAnchorCounterexample()
    ensures ScoresAsWritten("@0!", ["+G|=A", "+T"], 0, None) == Some(["31|15", "15"])
    ensures Total(["+G|=A", "+T"]) == 3
    ensures Scores("@0!", ["+G|=A", "+T"], 0) == ["31|15", "0"]
  {
    StaleAsWritten();
    StaleScores();
  }

  /** The body of the loop of qual_to_qscore for one cell, the closing `idx += 1` included. */
  method ScoreCell(qual: string, idx: nat, tag: string) returns (entry: string, next: nat)
    requires idx + Need(tag) <= |qual|
    ensures entry == Entry(qual, idx, tag) && next == idx + Need(tag)
  {
    var i: int := idx;
    if IsGap(tag) {
      entry := "-1";
      i := i - 1;
    } else if Marked(tag, '+') {
      entry, i := InsertionEntry(qual, idx, tag);
    } else {
      entry := Phred(qual[idx]);
    }
    next := i + 1;
  }

  /** The entries of the cells from k on: cell k's, then those of the cells after it. */
  lemma ScoresFrom(qual: string, tags: seq<string>, k: nat, idx: nat)
    requires k < |tags| && idx + Total(tags[k..]) <= |qual|
    ensures idx + Need(tags[k]) + Total(tags[k + 1..]) <= |qual|
    ensures Scores(qual, tags[k..], idx) == [Entry(qual, idx, tags[k])] + Scores(qual, tags[k + 1..], idx + Need(tags[k]))
  {
    var rest := tags[k..];
    assert rest[0] == tags[k] && rest[1..] == tags[k + 1..];
    ScoresUnfold(qual, rest, idx);
  }

  /** One pass of the loop of qual_to_qscore, over the cell at k. */
  method ScoreNext(qual: string, tags: seq<string>, k: nat, idx: nat) returns (entry: string, next: nat)
    requires k < |tags| && idx + Total(tags[k..]) <= |qual|
    ensures next + Total(tags[k + 1..]) <= |qual|
    ensures Scores(qual, tags[k..], idx) == [entry] + Scores(qual, tags[k + 1..], next)
  {
    ScoresFrom(qual, tags, k, idx);
    entry, next := ScoreCell(qual, idx, tags[k]);
  }

  /** The loop of qual_to_qscore: a running index into QUAL that a gap cell steps back
      by one before the common step forward, and that an insertion advances past its bases. */
  method ScoreCells(qual: string, tags: seq<string>) returns (entries: seq<string>)
    requires Total(tags) <= |qual|
    ensures entries == Scores(qual, tags, 0)
  {
    entries := [];
    var idx: nat := 0;
    var k := 0;
    while k < |tags|
      invariant 0 <= k <= |tags|
      invariant idx + Total(tags[k..]) <= |qual|
      invariant entries + Scores(qual, tags[k..], idx) == Scores(qual, tags, 0)
    {
      var entry;
      entry, idx := ScoreNext(qual, tags, k, idx);
      entries := entries + [entry];
      k := k + 1;
    }
    assert tags[k..] == [];
    assert entries == entries + Scores(qual, tags[k..], idx);
  }

  /** qual_to_qscore: the entries of the cells of the MIDSV string, joined by commas. */
  method QualToQscore(qual: string, midsv: string) returns (qscore: string)
    requires Total(Split(midsv, ',')) <= |qual|
    ensures qscore == Qscore(qual, midsv)
  {
    var entries := ScoreCells(qual, Split(midsv, ','));
    qscore := Join(entries, ',');
  }

  // ---------------------------------------------------------------------------
  // Properties of the entries
  // ---------------------------------------------------------------------------

  /** The inserted bases' scores depend on qual[idx .. idx + n] only. */
  lemma {:induction false} PipedScoresWindow(qual: string, qual': string, idx: nat, n: nat)
    requires idx + n <= |qual| && idx + n <= |qual'|
    requires forall k :: idx <= k < idx + n ==> qual[k] == qual'[k]
    ensures PipedScores(qual, idx, n) == PipedScores(qual', idx, n)
    decreases n
  {
    if n > 0 {
      PipedScoresWindow(qual, qual', idx, n - 1);
    }
  }

  /** Every cell is scored from its own quality characters, qual[idx .. idx + Need(cell)],
      and from no other. */
  lemma EntryWindow(qual: string, qual': string, idx: nat, cell: string)
    requires idx + Need(cell) <= |qual| && idx + Need(cell) <= |qual'|
    requires forall k :: idx <= k < idx + Need(cell) ==> qual[k] == qual'[k]
    ensures Entry(qual, idx, cell) == Entry(qual', idx, cell)
  {
    if !IsGap(cell) && Marked(cell, '+') {
      PipedScoresWindow(qual, qual', idx, |Parts(cell)| - 1);
    }
  }

  /** An insertion entry has one '|' per inserted base, and no comma. */
  lemma {:induction false} PipedScoresCount(qual: string, idx: nat, n: nat)
    requires idx + n <= |qual|
    ensures Count(PipedScores(qual, idx, n), '|') == n
    ensures Count(PipedScores(qual, idx, n), ',') == 0
    decreases n
  {
    if n > 0 {
      var p := Phred(qual[idx + n - 1]);
      PipedScoresCount(qual, idx, n - 1);
      CountAppend(PipedScores(qual, idx, n - 1), p + "|", '|');
      CountAppend(PipedScores(qual, idx, n - 1), p + "|", ',');
      CountAppend(p, "|", '|');
      CountAppend(p, "|", ',');
      PhredClean(qual[idx + n - 1]);
    }
  }

  /** No score entry holds a comma. */
  lemma EntryClean(qual: string, idx: nat, cell: string)
    requires idx + Need(cell) <= |qual|
    ensures Count(Entry(qual, idx, cell), ',') == 0
  {
    if IsGap(cell) {
      CountNone("-1", ',');
    } else if Marked(cell, '+') {
      var n := |Parts(cell)| - 1;
      var last := if IsGap(Parts(cell)[n]) then "-1" else Phred(qual[idx + n]);
      PipedScoresCount(qual, idx, n);
      if IsGap(Parts(cell)[n]) { CountNone("-1", ','); } else { PhredClean(qual[idx + n]); }
      CountAppend(PipedScores(qual, idx, n), last, ',');
    } else {
      PhredClean(qual[idx]);
    }
  }

  /** No score holds a separator of QSCORE. */
  lemma PhredFree(c: char)
    ensures '|' !in Phred(c) && ',' !in Phred(c)
  {
    var s := Phred(c);
    assert forall k :: 0 <= k < |s| ==> IsDigit(s[k]) || s[k] == '-';
  }

  /** Gluing the last two pieces of a list with the separator is joining them. */
  lemma JoinGlue(parts: seq<string>, a: string, b: string, sep: char)
    ensures Join(parts + [a + [sep] + b], sep) == Join(parts + [a, b], sep)
  {
    if parts == [] {
      assert [a, b][1..] == [b];
    } else {
      JoinAppend(parts, [a + [sep] + b], sep);
      JoinAppend(parts, [a, b], sep);
      assert [a, b][1..] == [b];
    }
  }

  /** The piped scores of n characters and a last score are the join of the n + 1 scores. */
  lemma {:induction false} PipedJoin(qual: string, idx: nat, n: nat, last: string)
    requires idx + n <= |qual|
    ensures PipedScores(qual, idx, n) + last == Join(Phreds(qual, idx, n) + [last], '|')
    decreases n
  {
    if n > 0 {
      var a := Phred(qual[idx + n - 1]);
      PipedJoin(qual, idx, n - 1, a + "|" + last);
      assert PipedScores(qual, idx, n) + last == PipedScores(qual, idx, n - 1) + (a + "|" + last);
      JoinGlue(Phreds(qual, idx, n - 1), a, last, '|');
      assert Phreds(qual, idx, n) + [last] == Phreds(qual, idx, n - 1) + [a, last];
    }
  }

  /** One score entry per cell, consistent with its cell: "-1" for a gap; for an insertion
      of n bases, the scores of the n quality characters from idx on and then the score of
      the next one, or "-1" when the last part is a gap; the score of its base for any
      other cell. */
  lemma EntryShape(qual: string, idx: nat, cell: string)
    requires idx + Need(cell) <= |qual|
    ensures IsGap(cell) ==> Entry(qual, idx, cell) == "-1"
    ensures !IsGap(cell) && Marked(cell, '+') ==>
      var n := |Parts(cell)| - 1;
      Split(Entry(qual, idx, cell), '|')
        == Phreds(qual, idx, n) + [if IsGap(Parts(cell)[n]) then "-1" else Phred(qual[idx + n])]
    ensures !IsGap(cell) && !Marked(cell, '+') ==> Entry(qual, idx, cell) == Phred(qual[idx])
  {
    if !IsGap(cell) && Marked(cell, '+') {
      var n := |Parts(cell)| - 1;
      var last := if IsGap(Parts(cell)[n]) then "-1" else Phred(qual[idx + n]);
      var scores := Phreds(qual, idx, n) + [last];
      PipedJoin(qual, idx, n, last);
      forall k | 0 <= k < |scores| ensures '|' !in scores[k] {
        if k < n { PhredFree(qual[idx + k]); } else if !IsGap(Parts(cell)[n]) { PhredFree(qual[idx + n]); }
      }
      SplitJoin(scores, '|');
    }
  }

  /** Entry k of a list of cells, for k > 0, is entry k - 1 of the rest of the list. */
  lemma ScoresShift(qual: string, cells: seq<string>, idx: nat, k: nat)
    requires idx + Total(cells) <= |qual| && 0 < k < |cells|
    ensures idx + Need(cells[0]) + Total(cells[1..]) <= |qual|
    ensures Scores(qual, cells, idx)[k] == Scores(qual, cells[1..], idx + Need(cells[0]))[k - 1]
  {
  }

  /** Entry 0 of a list of cells is the entry of its first cell. */
  lemma ScoresHead(qual: string, cells: seq<string>, idx: nat)
    requires idx + Total(cells) <= |qual| && cells != []
    ensures idx + Need(cells[0]) <= |qual|
    ensures Scores(qual, cells, idx)[0] == Entry(qual, idx, cells[0])
  {
  }

  /** No entry of a list of cells holds a comma. */
  lemma {:induction false} ScoreClean(qual: string, cells: seq<string>, idx: nat, k: nat)
    requires idx + Total(cells) <= |qual| && k < |cells|
    ensures Count(Scores(qual, cells, idx)[k], ',') == 0
    decreases k
  {
    if k == 0 {
      ScoresHead(qual, cells, idx);
      EntryClean(qual, idx, cells[0]);
    } else {
      ScoresShift(qual, cells, idx, k);
      ScoreClean(qual, cells[1..], idx + Need(cells[0]), k - 1);
    }
  }

  /** Splitting QSCORE at its commas gives back the entries, one per cell. */
  lemma QscoreEntries(qual: string, midsv: string)
    requires Total(Split(midsv, ',')) <= |qual|
    ensures Split(Qscore(qual, midsv), ',') == Scores(qual, Split(midsv, ','), 0)
  {
    var cells := Split(midsv, ',');
    forall k | 0 <= k < |cells| ensures ',' !in Scores(qual, cells, 0)[k] {
      ScoreClean(qual, cells, 0, k);
      if ',' in Scores(qual, cells, 0)[k] {
        var j :| 0 <= j < |Scores(qual, cells, 0)[k]| && Scores(qual, cells, 0)[k][j] == ',';
        CountSome(Scores(qual, cells, 0)[k], ',', j);
      }
    }
    SplitJoin(Scores(qual, cells, 0), ',');
  }

  /** qual_to_qscore returns exactly as many comma-separated entries as there are cells. */
  lemma QscoreAligned(qual: string, midsv: string)
    requires Total(Split(midsv, ',')) <= |qual|
    ensures |Split(Qscore(qual, midsv), ',')| == |Split(midsv, ',')|
  {
    QscoreEntries(qual, midsv);
  }

  /** A QSCORE entry fits its MIDSV cell, the quality string read from the running index
      at: -1 for a gap; for an insertion of n bases, one '|'-part per part of the cell, the
      first n the scores of the n quality characters from at on and the last the score of
      the next one, or -1 when the cell's last part is a gap; and the score of the quality
      character at the running index for any other cell. */
  predicate Fits(cell: string, entry: string, qual: string, at: nat)
  {
    (IsGap(cell) ==> entry == "-1")
    && (!IsGap(cell) && Marked(cell, '+') ==>
          var n := |Parts(cell)| - 1;
          at + Need(cell) <= |qual|
          && Split(entry, '|') == Phreds(qual, at, n) + [if IsGap(Parts(cell)[n]) then "-1" else Phred(qual[at + n])])
    && (!IsGap(cell) && !Marked(cell, '+') ==> at < |qual| && entry == Phred(qual[at]))
  }

  /** Entries fit their cells one by one, the quality string read from at on. */
  predicate FitsFrom(cells: seq<string>, entries: seq<string>, qual: string, at: nat)
    decreases |cells|
  {
    |entries| == |cells|
    && (cells != [] ==>
          Fits(cells[0], entries[0], qual, at)
          && FitsFrom(cells[1..], entries[1..], qual, at + Need(cells[0])))
  }

  /** The entries of a list of cells fit it, each read from where the one before stopped. */
  lemma {:induction false} ScoresFit(qual: string, cells: seq<string>, idx: nat)
    requires idx + Total(cells) <= |qual|
    ensures FitsFrom(cells, Scores(qual, cells, idx), qual, idx)
    decreases |cells|
  {
    if cells != [] {
      var entries := Scores(qual, cells, idx);
      ScoresUnfold(qual, cells, idx);
      assert entries[0] == Entry(qual, idx, cells[0]);
      assert entries[1..] == Scores(qual, cells[1..], idx + Need(cells[0]));
      EntryShape(qual, idx, cells[0]);
      ScoresFit(qual, cells[1..], idx + Need(cells[0]));
    }
  }

  /** What the first k cells consume: the first cell's, then the next k - 1's. */
  lemma TotalStep(cells: seq<string>, k: nat)
    requires 0 < k <= |cells|
    ensures Total(cells[..k]) == Need(cells[0]) + Total(cells[1..][..k - 1])
  {
    assert cells[..k][0] == cells[0] && cells[..k][1..] == cells[1..][..k - 1];
  }

  /** The entries from k on of a fitting list fit the cells from k on, read from at plus
      what the cells before k consumed. */
  lemma {:induction false} FitsDrop(cells: seq<string>, entries: seq<string>, qual: string, at: nat, k: nat)
    requires FitsFrom(cells, entries, qual, at) && k <= |cells|
    ensures FitsFrom(cells[k..], entries[k..], qual, at + Total(cells[..k]))
    decreases k
  {
    if k == 0 {
      assert cells[..0] == [] && cells[0..] == cells && entries[0..] == entries;
    } else {
      FitsDrop(cells[1..], entries[1..], qual, at + Need(cells[0]), k - 1);
      TotalStep(cells, k);
      assert cells[1..][k - 1..] == cells[k..] && entries[1..][k - 1..] == entries[k..];
    }
  }

  /** Entry k of a fitting list fits cell k at the running index: at plus what the cells
      before it consumed. */
  lemma FitsAt(cells: seq<string>, entries: seq<string>, qual: string, at: nat, k: nat)
    requires FitsFrom(cells, entries, qual, at) && k < |cells|
    ensures Fits(cells[k], entries[k], qual, at + Total(cells[..k]))
  {
    FitsDrop(cells, entries, qual, at, k);
    assert cells[k..][0] == cells[k] && entries[k..][0] == entries[k];
  }

  /** Every entry of qual_to_qscore fits its cell, the quality string read left to right. */
  lemma QscoreFits(qual: string, midsv: string)
    requires Total(Split(midsv, ',')) <= |qual|
    ensures |Split(Qscore(qual, midsv), ',')| == |Split(midsv, ',')|
    ensures var cells, entries := Split(midsv, ','), Split(Qscore(qual, midsv), ',');
      forall k :: 0 <= k < |cells| ==> Fits(cells[k], entries[k], qual, Total(cells[..k]))
  {
    var cells := Split(midsv, ',');
    QscoreEntries(qual, midsv);
    ScoresFit(qual, cells, 0);
    forall k | 0 <= k < |cells|
      ensures Fits(cells[k], Scores(qual, cells, 0)[k], qual, Total(cells[..k]))
    {
      FitsAt(cells, Scores(qual, cells, 0), qual, 0, k);
    }
  }
}
