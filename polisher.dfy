/** polish (src/midsv/polisher.py): the alignments of one read that minimap2 split into
    segments are merged into one record, every record is padded to the length of its
    reference, records of any other length are dropped, and the fields the caller does
    not keep are removed.

    MIDSV and QSCORE are held as their cells, that is as s.split(","). The string
    operations of the code then read as operations on cells:
    s.lower() lower-cases every cell, s + ",=N" * g appends g cells "=N",
    "=N," * l + s + ",=N" * r adds l cells in front and r behind, and
    ",".join(cells[h:]) keeps the cells after the first h, or the single empty cell ""
    when no cell is left (because "".split(",") is [""]). */
module Polisher {
  import opened Strings
  import opened Sorting
  import opened Records

  // ---------------------------------------------------------------------------
  // is_forward_strand, process_inversion
  // ---------------------------------------------------------------------------

  /** is_forward_strand: bit 0x10 of FLAG, "SEQ being reverse complemented" in section 1.4
      of the SAM format specification (SAMv1), is clear. Python's `&` works on the two's
      complement of any integer; Dafny's `/` and `%` by a positive divisor round down, so
      (flag / 16) % 2 is that bit for every integer. */
  predicate IsForwardStrand(flag: int)
  {
    (flag / 16) % 2 == 0
  }

  /** Bit 0x10 is clear exactly when the remainder of FLAG by 0x20 is below 0x10. */
  lemma ForwardStrandBit(flag: int)
    ensures IsForwardStrand(flag) <==> flag % 32 < 16
  {
    var q := flag / 32;
    assert flag == 32 * q + flag % 32;
    assert flag / 16 == 2 * q + (flag % 32) / 16;
  }

  /** Strand and inversion do not depend on the bits above 0x10 and below it. */
  lemma ForwardStrandFlip(flag: int)
    ensures IsForwardStrand(flag + 16) <==> !IsForwardStrand(flag)
    ensures IsForwardStrand(flag + 32) <==> IsForwardStrand(flag)
  {
    assert (flag + 16) / 16 == flag / 16 + 1;
    assert (flag + 32) / 16 == flag / 16 + 2;
  }

  /** process_inversion: a segment on the other strand than the first segment of its
      read is an inversion, marked by lower-casing its MIDSV cells. */
  function Inversion(r: Rec, firstStrand: bool): Rec
  {
    if firstStrand != IsForwardStrand(r.flag) then r.(midsv := LowerAll(r.midsv)) else r
  }

  method ProcessInversion(alignment: Alignment, firstStrand: bool)
    modifies alignment
    ensures alignment.Value() == Inversion(old(alignment.Value()), firstStrand)
  {
    var currentIsForward := IsForwardStrand(alignment.flag);
    if firstStrand != currentIsForward {
      alignment.midsv := LowerAll(alignment.midsv);
    }
  }

  lemma UpperLower(s: string)
    ensures Upper(Lower(s)) == Upper(s)
  {
    forall k | 0 <= k < |s| ensures Upper(Lower(s))[k] == Upper(s)[k] {
      var c := s[k];
      assert Lower(s)[k] == LowerChar(c);
    }
  }

  lemma LowerLower(s: string)
    ensures Lower(Lower(s)) == Lower(s)
  {
    forall k | 0 <= k < |s| ensures Lower(Lower(s))[k] == Lower(s)[k] {
      assert Lower(s)[k] == LowerChar(s[k]);
    }
  }

  /** Marking an inversion changes only the case of the MIDSV cells, and on the same strand
      nothing at all; a marked segment is all lower case. */
  lemma InversionMarks(r: Rec, firstStrand: bool)
    ensures var v := Inversion(r, firstStrand);
      && v.(midsv := r.midsv) == r
      && |v.midsv| == |r.midsv|
      && UpperAll(v.midsv) == UpperAll(r.midsv)
      && (firstStrand == IsForwardStrand(r.flag) ==> v == r)
      && (firstStrand != IsForwardStrand(r.flag) ==> LowerAll(v.midsv) == v.midsv)
  {
    var v := Inversion(r, firstStrand);
    forall k | 0 <= k < |r.midsv| ensures UpperAll(v.midsv)[k] == UpperAll(r.midsv)[k] {
      UpperLower(r.midsv[k]);
    }
    forall k | 0 <= k < |v.midsv| ensures LowerAll(v.midsv)[k] == Lower(v.midsv[k]) {
    }
    if firstStrand != IsForwardStrand(r.flag) {
      forall k | 0 <= k < |v.midsv| ensures LowerAll(v.midsv)[k] == v.midsv[k] {
        LowerLower(r.midsv[k]);
      }
    }
  }

  // ---------------------------------------------------------------------------
  // calculate_microhomology
  // ---------------------------------------------------------------------------

  /** The last i cells of the previous segment are the first i cells of the current one. */
  predicate CellsMatch(prev: Rec, cur: Rec, i: nat)
  {
    i <= |prev.midsv| && i <= |cur.midsv| && prev.midsv[|prev.midsv| - i..] == cur.midsv[..i]
  }

  /** The current segment has QSCORE and the scores over those cells differ
      (taken with Python's slices, which clamp). The previous segment then has QSCORE
      too, or the code fails with a KeyError. */
  predicate ScoresDiffer(prev: Rec, cur: Rec, i: nat)
  {
    cur.qscore.Some? && prev.qscore.Some? && i <= |prev.midsv|
    && PySlice(prev.qscore.value, |prev.midsv| - i, |prev.qscore.value|) != PySlice(cur.qscore.value, 0, i)
  }

  /** The loop of calculate_microhomology over the lengths i..n, n the shorter number of
      cells: matches(k) says the last k cells of the previous segment are the first k of
      the current one, differs(k) that the scores over them differ, and best is the
      length found so far. */
  function ScanWith(matches: nat -> bool, differs: nat -> bool, n: nat, i: nat, best: nat): nat
    decreases n + 1 - i
  {
    if i > n then best
    else if matches(i) then (if differs(i) then best else ScanWith(matches, differs, n, i + 1, i))
    else ScanWith(matches, differs, n, i + 1, best)
  }

  /** The first length from i on at which the scan stops, or n + 1 when it never does. */
  function FirstBlockedWith(matches: nat -> bool, differs: nat -> bool, n: nat, i: nat): (stop: nat)
    ensures i <= stop || stop == n + 1
    ensures stop <= n + 1
    ensures stop <= n ==> matches(stop) && differs(stop)
    decreases n + 1 - i
  {
    if i > n then n + 1
    else if matches(i) && differs(i) then i
    else FirstBlockedWith(matches, differs, n, i + 1)
  }

  /** h, no smaller than best, is the longest length shorter than stop whose cells match
      and whose scores do not differ. */
  predicate LongestWith(matches: nat -> bool, differs: nat -> bool, best: nat, h: nat, stop: nat)
  {
    && best <= h < stop
    && (h > 0 ==> matches(h) && !differs(h))
    && (forall j :: h < j < stop ==> !(matches(j) && !differs(j)))
  }

  /** The scan from i on, with best the longest length taken below i, ends with the
      longest length taken before it stops. */
  lemma {:induction false} ScanWithLongest(matches: nat -> bool, differs: nat -> bool, n: nat, i: nat, best: nat)
    requires 1 <= i <= n + 1 && best < i
    requires best > 0 ==> matches(best) && !differs(best)
    requires forall j :: best < j < i ==> !(matches(j) && !differs(j))
    ensures LongestWith(matches, differs, best, ScanWith(matches, differs, n, i, best),
                        FirstBlockedWith(matches, differs, n, i))
    decreases n + 1 - i
  {
    if i <= n && !(matches(i) && differs(i)) {
      var next := if matches(i) then i else best;
      ScanWithLongest(matches, differs, n, i + 1, next);
    }
  }

  /** No length from i on before FirstBlockedWith stops the scan. */
  lemma {:induction false} FirstBlockedWithFirst(matches: nat -> bool, differs: nat -> bool, n: nat, i: nat)
    ensures forall j :: i <= j < FirstBlockedWith(matches, differs, n, i) ==> !(matches(j) && differs(j))
    decreases n + 1 - i
  {
    if i <= n && !(matches(i) && differs(i)) {
      FirstBlockedWithFirst(matches, differs, n, i + 1);
    }
  }

  function Matches(prev: Rec, cur: Rec): nat -> bool
  {
    (k: nat) => CellsMatch(prev, cur, k)
  }

  function Differs(prev: Rec, cur: Rec): nat -> bool
  {
    (k: nat) => ScoresDiffer(prev, cur, k)
  }

  lemma MatchesDiffers(prev: Rec, cur: Rec)
    ensures forall k :: Matches(prev, cur)(k) == CellsMatch(prev, cur, k)
    ensures forall k :: Differs(prev, cur)(k) == ScoresDiffer(prev, cur, k)
  {
  }

  /** The loop of calculate_microhomology from length i on, with `best` found so far. */
  function Scan(prev: Rec, cur: Rec, i: nat, best: nat): nat
  {
    ScanWith(Matches(prev, cur), Differs(prev, cur), Min(|prev.midsv|, |cur.midsv|), i, best)
  }

  /** calculate_microhomology, as a value. */
  function Microhomology(prev: Rec, cur: Rec): nat
  {
    Scan(prev, cur, 1, 0)
  }

  /** A length at which the scan stops: the cells match but the scores do not. */
  predicate Blocked(prev: Rec, cur: Rec, i: nat)
  {
    CellsMatch(prev, cur, i) && ScoresDiffer(prev, cur, i)
  }

  /** A length the scan may take: the cells match and so do the scores, if any. */
  predicate Overlap(prev: Rec, cur: Rec, i: nat)
  {
    CellsMatch(prev, cur, i) && !ScoresDiffer(prev, cur, i)
  }

  /** The first length from 1 on at which the scan stops, or one past the shorter length
      when it never does. */
  function FirstBlocked(prev: Rec, cur: Rec): (stop: nat)
    ensures 1 <= stop <= Min(|prev.midsv|, |cur.midsv|) + 1
    ensures stop <= Min(|prev.midsv|, |cur.midsv|) ==> Blocked(prev, cur, stop)
    ensures forall j :: 1 <= j < stop ==> !Blocked(prev, cur, j)
  {
    var stop := FirstBlockedWith(Matches(prev, cur), Differs(prev, cur), Min(|prev.midsv|, |cur.midsv|), 1);
    FirstBlockedWithFirst(Matches(prev, cur), Differs(prev, cur), Min(|prev.midsv|, |cur.midsv|), 1);
    MatchesDiffers(prev, cur);
    stop
  }

  /** calculate_microhomology returns the longest overlap h of the end of the previous
      segment with the start of the current one (equal cells, and equal scores when the
      current segment has QSCORE) that is shorter than the first length whose cells
      match but whose scores differ, where the scan stops; no such length or no
      overlap gives 0. */
  lemma MicrohomologyLongest(prev: Rec, cur: Rec)
    ensures var h := Microhomology(prev, cur);
      && h < FirstBlocked(prev, cur)
      && (h > 0 ==> Overlap(prev, cur, h))
      && (forall j :: h < j < FirstBlocked(prev, cur) ==> !Overlap(prev, cur, j))
  {
    ScanWithLongest(Matches(prev, cur), Differs(prev, cur), Min(|prev.midsv|, |cur.midsv|), 1, 0);
    MatchesDiffers(prev, cur);
  }

  /** Without QSCORE the microhomology is simply the longest suffix of the previous
      cells that is a prefix of the current cells. */
  lemma MicrohomologyWithoutScores(prev: Rec, cur: Rec)
    requires cur.qscore.None?
    ensures var h := Microhomology(prev, cur);
      && h <= Min(|prev.midsv|, |cur.midsv|)
      && prev.midsv[|prev.midsv| - h..] == cur.midsv[..h]
      && (forall j :: h < j <= Min(|prev.midsv|, |cur.midsv|) ==> !CellsMatch(prev, cur, j))
  {
    MicrohomologyLongest(prev, cur);
    assert FirstBlocked(prev, cur) == Min(|prev.midsv|, |cur.midsv|) + 1;
    var h := Microhomology(prev, cur);
    if h == 0 {
      assert prev.midsv[|prev.midsv| - h..] == [] == cur.midsv[..h];
    }
    forall j | h < j <= Min(|prev.midsv|, |cur.midsv|) ensures !CellsMatch(prev, cur, j) {
      assert !Overlap(prev, cur, j);
    }
  }

  /** calculate_microhomology; the loop leaves by `break` as soon as a length blocks. */
  method CalculateMicrohomology(previous: Alignment, current: Alignment) returns (h: nat)
    requires current.qscore.Some? ==> previous.qscore.Some?
    ensures h == Microhomology(previous.Value(), current.Value())
  {
    ghost var prev, cur := previous.Value(), current.Value();
    var previousMidsv, currentMidsv := previous.midsv, current.midsv;
    var minLength := Min(|previousMidsv|, |currentMidsv|);
    h := 0;
    var i := 1;
    while i <= |currentMidsv|
      invariant 1 <= i <= minLength + 1
      invariant h < i
      invariant Scan(prev, cur, i, h) == Microhomology(prev, cur)
      decreases |currentMidsv| + 1 - i
    {
      if i == minLength + 1 {
        break;
      }
      var prevIndex := |previousMidsv| - i;
      if previousMidsv[prevIndex..] == currentMidsv[..i] {
        if current.qscore.Some?
          && PySlice(previous.qscore.value, prevIndex, |previous.qscore.value|) != PySlice(current.qscore.value, 0, i)
        {
          break;
        }
        h := i;
      }
      i := i + 1;
    }
  }

  // ---------------------------------------------------------------------------
  // remove_microhomology, fill_gap
  // ---------------------------------------------------------------------------

  /** ",".join(cells[h:]).split(","). */
  function Drop(cells: seq<string>, h: nat): (rest: seq<string>)
    ensures |rest| >= 1
  {
    if h >= |cells| then [""] else cells[h..]
  }

  /** remove_microhomology, as a value: the first h cells of MIDSV and of QSCORE go, and
      POS moves on by h. */
  function Trimmed(r: Rec, h: nat): Rec
  {
    r.(midsv := Drop(r.midsv, h),
       qscore := if r.qscore.Some? then Some(Drop(r.qscore.value, h)) else None,
       pos := r.pos + h)
  }

  method RemoveMicrohomology(alignment: Alignment, h: nat)
    modifies alignment
    ensures alignment.Value() == Trimmed(old(alignment.Value()), h)
  {
    alignment.midsv := Drop(alignment.midsv, h);
    if alignment.qscore.Some? {
      alignment.qscore := Some(Drop(alignment.qscore.value, h));
    }
    alignment.pos := alignment.pos + h;
  }

  /** The reference position of the last MIDSV cell, as merge computes it. */
  function End(r: Rec): int
  {
    r.pos + |r.midsv| - 1
  }

  /** Trimming fewer cells than there are: the dropped cells and the rest make up the
      old cells, POS moves to the first cell left and the end stays where it was;
      trimming none changes nothing. */
  lemma TrimmedKeepsEnd(r: Rec, h: nat)
    requires h < |r.midsv|
    ensures r.midsv == r.midsv[..h] + Trimmed(r, h).midsv
    ensures End(Trimmed(r, h)) == End(r)
    ensures Trimmed(r, h).(midsv := r.midsv, qscore := r.qscore, pos := r.pos) == r
    ensures h == 0 && (r.qscore.Some? ==> r.qscore.value != []) ==> Trimmed(r, h) == r
  {
  }

  /** Trimming keeps each QSCORE entry with its MIDSV cell. */
  lemma TrimmedAligned(r: Rec, h: nat)
    requires ScoresAligned(r)
    ensures ScoresAligned(Trimmed(r, h))
  {
  }

  /** fill_gap, as a value: gap cells "=N" and, with QSCORE, gap scores "-1" are appended;
      a gap of zero or less appends nothing. */
  function Filled(r: Rec, gap: int): Rec
  {
    r.(midsv := r.midsv + Repeat("=N", gap),
       qscore := if r.qscore.Some? then Some(r.qscore.value + Repeat("-1", gap)) else None)
  }

  method FillGap(template: Alignment, gap: int)
    modifies template
    ensures template.Value() == Filled(old(template.Value()), gap)
  {
    template.midsv := template.midsv + Repeat("=N", gap);
    if template.qscore.Some? {
      template.qscore := Some(template.qscore.value + Repeat("-1", gap));
    }
  }

  /** Filling adds max(0, gap) cells, keeps the old ones in front, keeps scores aligned,
      and filling twice by non-negative gaps is filling once by their sum. */
  lemma FilledShape(r: Rec, gap: int, more: int)
    ensures |Filled(r, gap).midsv| == |r.midsv| + Max(0, gap)
    ensures Filled(r, gap).midsv[..|r.midsv|] == r.midsv
    ensures Filled(r, gap).(midsv := r.midsv, qscore := r.qscore) == r
    ensures gap <= 0 ==> Filled(r, gap) == r
    ensures ScoresAligned(r) ==> ScoresAligned(Filled(r, gap))
    ensures gap >= 0 && more >= 0 ==> Filled(Filled(r, gap), more) == Filled(r, gap + more)
  {
    if gap <= 0 {
      assert r.midsv + Repeat("=N", gap) == r.midsv;
      assert r.qscore.Some? ==> r.qscore.value + Repeat("-1", gap) == r.qscore.value;
    }
    if gap >= 0 && more >= 0 {
      RepeatAppend("=N", gap, more);
      RepeatAppend("-1", gap, more);
      assert r.midsv + Repeat("=N", gap) + Repeat("=N", more) == r.midsv + Repeat("=N", gap + more);
      if r.qscore.Some? {
        var q := r.qscore.value;
        assert q + Repeat("-1", gap) + Repeat("-1", more) == q + Repeat("-1", gap + more);
      }
    }
  }

  lemma RepeatAppend<T>(x: T, a: nat, b: nat)
    ensures Repeat(x, a) + Repeat(x, b) == Repeat(x, a + b)
  {
  }

  // ---------------------------------------------------------------------------
  // merge, for the segments of one read
  // ---------------------------------------------------------------------------

  /** The segments of a read all have QSCORE or all lack it; merge fails with a KeyError
      otherwise. */
  predicate SameScoring(rs: seq<Rec>)
  {
    forall k :: 0 <= k < |rs| ==> rs[k].qscore.Some? == rs[0].qscore.Some?
  }

  /** A later segment as merge leaves it: marked when inverted, then with its overlap with
      the previous segment, in the state merge left that one in, trimmed. */
  function Segment(prev: Rec, cur: Rec, firstStrand: bool): (s: Rec)
    ensures s.qscore.Some? == cur.qscore.Some?
  {
    var c := Inversion(cur, firstStrand);
    Trimmed(c, Microhomology(prev, c))
  }

  /** The segments of one read, sorted by POS, as merge leaves them: the first untouched,
      every later one the Segment of itself after the one before it. */
  function Segments(rs: seq<Rec>, firstStrand: bool): (ps: seq<Rec>)
    requires |rs| >= 1
    ensures |ps| == |rs| && ps[0] == rs[0]
    ensures forall k :: 0 <= k < |ps| ==> ps[k].qscore.Some? == rs[k].qscore.Some?
    decreases |rs|
  {
    if |rs| == 1 then rs
    else
      var init := Segments(rs[..|rs| - 1], firstStrand);
      init + [Segment(init[|init| - 1], rs[|rs| - 1], firstStrand)]
  }

  /** Each later segment is the Segment of its input after the previous segment's result. */
  lemma {:induction false} SegmentsAt(rs: seq<Rec>, firstStrand: bool, k: nat)
    requires 1 <= k < |rs|
    ensures Segments(rs, firstStrand)[k] == Segment(Segments(rs, firstStrand)[k - 1], rs[k], firstStrand)
    decreases |rs|
  {
    if k < |rs| - 1 {
      var init := rs[..|rs| - 1];
      SegmentsAt(init, firstStrand, k);
    }
  }

  /** The QSCORE entries of a record, none when it has no QSCORE. */
  function Scores(r: Rec): seq<string>
  {
    if r.qscore.Some? then r.qscore.value else []
  }

  /** The MIDSV and QSCORE of a segment appended to the template (merge fails with a
      KeyError when the template has QSCORE and the segment has not). */
  function Appended(t: Rec, cur: Rec): (a: Rec)
  {
    t.(midsv := t.midsv + cur.midsv,
       qscore := if t.qscore.Some? then Some(t.qscore.value + Scores(cur)) else None)
  }

  /** One turn of the loop of merge on the template: the reference gap between the end of
      the previous segment and the start of the current one is filled, then the current
      segment is appended. */
  function Attach(t: Rec, prev: Rec, cur: Rec): Rec
  {
    Appended(Filled(t, (cur.pos - 1) - End(prev)), cur)
  }

  /** The template merge builds from the segments as it leaves them. */
  function Assemble(ps: seq<Rec>): (t: Rec)
    requires |ps| >= 1
    ensures t.qscore.Some? == ps[0].qscore.Some?
    decreases |ps|
  {
    if |ps| == 1 then ps[0]
    else Attach(Assemble(ps[..|ps| - 1]), ps[|ps| - 2], ps[|ps| - 1])
  }

  /** The record merge emits for the segments of one read, sorted by POS. */
  function MergedRead(rs: seq<Rec>): Rec
    requires |rs| >= 1
  {
    var ps := Segments(rs, IsForwardStrand(rs[0].flag));
    Assemble(ps)
  }

  /** The template keeps everything of the first segment but MIDSV and QSCORE; a read
      of one segment passes through unchanged. */
  lemma {:induction false} AssembleKeeps(ps: seq<Rec>)
    requires |ps| >= 1
    ensures Assemble(ps).(midsv := ps[0].midsv, qscore := ps[0].qscore) == ps[0]
    ensures |ps| == 1 ==> Assemble(ps) == ps[0]
    decreases |ps|
  {
    if |ps| > 1 {
      AssembleKeeps(ps[..|ps| - 1]);
    }
  }

  /** merge keeps QNAME, FLAG, RNAME, POS and the other fields of the read's first
      segment, and passes a read of one segment through unchanged. */
  lemma MergedReadKeeps(rs: seq<Rec>)
    requires |rs| >= 1
    ensures MergedRead(rs).(midsv := rs[0].midsv, qscore := rs[0].qscore) == rs[0]
    ensures |rs| == 1 ==> MergedRead(rs) == rs[0]
  {
    AssembleKeeps(Segments(rs, IsForwardStrand(rs[0].flag)));
  }

  /** cells sit in t from index off on, cell by cell. */
  predicate Placed(t: seq<string>, off: int, cells: seq<string>)
    decreases |cells|
  {
    0 <= off && off + |cells| <= |t|
    && (cells == [] || (t[off] == cells[0] && Placed(t, off + 1, cells[1..])))
  }

  /** Placed is the slice of t at off being cells. */
  lemma {:induction false} PlacedSlice(t: seq<string>, off: int, cells: seq<string>)
    ensures Placed(t, off, cells) <==> 0 <= off && off + |cells| <= |t| && t[off..off + |cells|] == cells
    decreases |cells|
  {
    if cells != [] && 0 <= off && off + |cells| <= |t| {
      PlacedSlice(t, off + 1, cells[1..]);
      assert t[off..off + |cells|] == [t[off]] + t[off + 1..off + 1 + |cells[1..]|];
      assert cells == [cells[0]] + cells[1..];
    }
  }

  lemma {:induction false} PlacedExtend(t: seq<string>, off: int, cells: seq<string>, more: seq<string>)
    requires Placed(t, off, cells)
    ensures Placed(t + more, off, cells)
    decreases |cells|
  {
    if cells != [] {
      PlacedExtend(t, off + 1, cells[1..], more);
    }
  }

  lemma PlaceLast(a: seq<string>, g: seq<string>, c: seq<string>)
    ensures Placed(a + (g + c), |a|, g)
    ensures Placed(a + (g + c), |a| + |g|, c)
  {
    var t := a + (g + c);
    assert t[|a|..|a| + |g|] == g;
    assert t[|a| + |g|..|a| + |g| + |c|] == c;
    PlacedSlice(t, |a|, g);
    PlacedSlice(t, |a| + |g|, c);
  }

  /** Segment k starts after the end of the segment before it. */
  predicate FollowsAt(ps: seq<Rec>, k: nat)
    requires 1 <= k < |ps|
  {
    End(ps[k - 1]) < ps[k].pos
  }

  /** Each segment starts after the end of the one before it. */
  predicate Ascending(ps: seq<Rec>)
  {
    forall k :: 1 <= k < |ps| ==> FollowsAt(ps, k)
  }

  /** The cells between segments k - 1 and k are "=N" at their reference positions. */
  predicate GapPlaced(t: seq<string>, ps: seq<Rec>, k: nat)
    requires 1 <= k < |ps|
  {
    Placed(t, End(ps[k - 1]) + 1 - ps[0].pos, Gap(ps[k - 1], ps[k]))
  }

  /** t lays the segments ps out on the reference: it starts at the first segment's POS,
      ends where the last segment ends, every segment's cells sit at its own POS, and
      the cells between two segments are "=N". */
  predicate LaidOut(t: Rec, ps: seq<Rec>)
    requires |ps| >= 1
  {
    && t.pos == ps[0].pos
    && End(t) == End(ps[|ps| - 1])
    && (forall k :: 0 <= k < |ps| ==> Placed(t.midsv, ps[k].pos - ps[0].pos, ps[k].midsv))
    && (forall k :: 1 <= k < |ps| ==> GapPlaced(t.midsv, ps, k))
  }

  /** When no segment overlaps the one before it, merge lays the segments out on the
      reference. */
  lemma {:induction false} AssemblePlaces(ps: seq<Rec>)
    requires |ps| >= 1 && Ascending(ps)
    ensures LaidOut(Assemble(ps), ps)
    decreases |ps|
  {
    if |ps| == 1 {
      assert ps[0].midsv[0..|ps[0].midsv|] == ps[0].midsv;
      PlacedSlice(ps[0].midsv, 0, ps[0].midsv);
    } else {
      var n := |ps|;
      var init := ps[..n - 1];
      forall k | 1 <= k < n - 1 ensures FollowsAt(init, k) {
        assert FollowsAt(ps, k);
      }
      AssemblePlaces(init);
      assert FollowsAt(ps, n - 1);
      AttachPlaces(Assemble(init), init, ps);
    }
  }

  /** One turn of the loop of merge keeps the segments so far laid out. */
  lemma AttachPlaces(a: Rec, init: seq<Rec>, ps: seq<Rec>)
    requires |ps| >= 2 && init == ps[..|ps| - 1]
    requires LaidOut(a, init) && FollowsAt(ps, |ps| - 1)
    ensures LaidOut(Attach(a, ps[|ps| - 2], ps[|ps| - 1]), ps)
  {
    var n := |ps|;
    var prev, cur := ps[n - 2], ps[n - 1];
    AttachCells(a, prev, cur);
    var t := Attach(a, prev, cur);
    var more := Gap(prev, cur) + cur.midsv;
    assert init[0] == ps[0] && init[n - 2] == prev;
    assert |a.midsv| == End(prev) + 1 - ps[0].pos;
    assert |Gap(prev, cur)| == cur.pos - 1 - End(prev);
    PlaceLast(a.midsv, Gap(prev, cur), cur.midsv);
    forall k | 0 <= k < n
      ensures Placed(t.midsv, ps[k].pos - ps[0].pos, ps[k].midsv)
    {
      if k < n - 1 {
        assert init[k] == ps[k];
        PlacedExtend(a.midsv, ps[k].pos - ps[0].pos, ps[k].midsv, more);
      }
    }
    forall k | 1 <= k < n
      ensures GapPlaced(t.midsv, ps, k)
    {
      if k < n - 1 {
        assert init[k] == ps[k] && init[k - 1] == ps[k - 1];
        assert GapPlaced(a.midsv, init, k);
        PlacedExtend(a.midsv, End(ps[k - 1]) + 1 - ps[0].pos, Gap(ps[k - 1], ps[k]), more);
      }
    }
  }

  /** The "=N" cells merge puts between two segments. */
  function Gap(prev: Rec, cur: Rec): seq<string>
  {
    Repeat("=N", (cur.pos - 1) - End(prev))
  }

  /** One turn of the loop of merge, in cells. */
  lemma AttachCells(a: Rec, prev: Rec, cur: Rec)
    requires End(prev) < cur.pos
    ensures Attach(a, prev, cur).pos == a.pos
    ensures Attach(a, prev, cur).midsv == a.midsv + (Gap(prev, cur) + cur.midsv)
    ensures End(Attach(a, prev, cur)) == End(a) + (cur.pos - 1 - End(prev)) + |cur.midsv|
  {
    assert a.midsv + Gap(prev, cur) + cur.midsv == a.midsv + (Gap(prev, cur) + cur.midsv);
  }

  /** Each QSCORE entry stays with its MIDSV cell through merge. */
  lemma {:induction false} AssembleAligned(ps: seq<Rec>)
    requires |ps| >= 1 && SameScoring(ps)
    requires forall k :: 0 <= k < |ps| ==> ScoresAligned(ps[k])
    ensures ScoresAligned(Assemble(ps))
    decreases |ps|
  {
    if |ps| > 1 {
      AssembleAligned(ps[..|ps| - 1]);
    }
  }

  /** Marking and trimming keep each QSCORE entry with its MIDSV cell. */
  lemma {:induction false} SegmentsAligned(rs: seq<Rec>, firstStrand: bool)
    requires |rs| >= 1
    requires forall k :: 0 <= k < |rs| ==> ScoresAligned(rs[k])
    ensures forall k :: 0 <= k < |rs| ==> ScoresAligned(Segments(rs, firstStrand)[k])
    decreases |rs|
  {
    if |rs| > 1 {
      SegmentsAligned(rs[..|rs| - 1], firstStrand);
    }
  }

  /** With every segment's QSCORE entries aligned to its cells, so are the merged ones. */
  lemma MergedReadAligned(rs: seq<Rec>)
    requires |rs| >= 1 && SameScoring(rs)
    requires forall k :: 0 <= k < |rs| ==> ScoresAligned(rs[k])
    ensures ScoresAligned(MergedRead(rs))
  {
    var ps := Segments(rs, IsForwardStrand(rs[0].flag));
    SegmentsAligned(rs, IsForwardStrand(rs[0].flag));
    AssembleAligned(ps);
  }

  /** All segments before n are as merge leaves them, the others untouched. */
  predicate SegmentedUpTo(records: seq<Alignment>, start: seq<Rec>, ps: seq<Rec>, n: nat)
    reads records
    requires |start| == |ps| == |records| && n <= |records|
  {
    (forall k :: 0 <= k < n ==> records[k].Value() == ps[k])
    && (forall k :: n <= k < |records| ==> records[k].Value() == start[k])
  }

  /** The end of the loop body of merge: the current segment is appended to the template. */
  method AppendSegment(template: Alignment, current: Alignment)
    requires template != current
    requires template.qscore.Some? ==> current.qscore.Some?
    modifies template
    ensures template.Value() == Appended(old(template.Value()), current.Value())
  {
    template.midsv := template.midsv + current.midsv;
    if template.qscore.Some? {
      template.qscore := Some(template.qscore.value + current.qscore.value);
    }
  }

  /** The start of the loop body of merge: the current segment is marked when inverted
      and trimmed by its overlap with the previous one. */
  method SegmentCurrent(previous: Alignment, current: Alignment, firstStrand: bool)
    requires previous != current
    requires current.qscore.Some? ==> previous.qscore.Some?
    modifies current
    ensures current.Value() == Segment(previous.Value(), old(current.Value()), firstStrand)
  {
    ProcessInversion(current, firstStrand);
    var h := CalculateMicrohomology(previous, current);
    RemoveMicrohomology(current, h);
  }

  /** The end of the loop body of merge: the gap is filled and the current segment
      appended to the template. */
  method ExtendTemplate(template: Alignment, previous: Alignment, current: Alignment)
    requires template != previous && template != current
    requires template.qscore.Some? ==> current.qscore.Some?
    modifies template
    ensures template.Value() == Attach(old(template.Value()), previous.Value(), current.Value())
  {
    var previousEnd := previous.pos + |previous.midsv| - 1;
    var currentStart := current.pos - 1;
    FillGap(template, currentStart - previousEnd);
    AppendSegment(template, current);
  }

  lemma AssembleSnoc(ps: seq<Rec>, i: nat)
    requires 1 <= i < |ps|
    ensures Assemble(ps[..i + 1]) == Attach(Assemble(ps[..i]), ps[i - 1], ps[i])
  {
    assert ps[..i + 1][..i] == ps[..i];
  }

  /** The i-th segment of a read as merge leaves it, the others unchanged. */
  method SegmentAt(records: seq<Alignment>, firstStrand: bool, i: nat, ghost start: seq<Rec>, ghost ps: seq<Rec>)
    requires Distinct(records) && 1 <= i < |records| == |start| == |ps|
    requires SegmentedUpTo(records, start, ps, i)
    requires ps[i] == Segment(ps[i - 1], start[i], firstStrand)
    requires start[i].qscore.Some? ==> ps[i - 1].qscore.Some?
    modifies records[i]
    ensures SegmentedUpTo(records, start, ps, i + 1)
  {
    SegmentCurrent(records[i - 1], records[i], firstStrand);
  }

  /** The state of the inner loop of merge before the i-th segment: the segments before
      it are as merge leaves them, the others untouched, and the template is assembled
      from the former. */
  predicate AssembledUpTo(records: seq<Alignment>, template: Alignment, start: seq<Rec>, ps: seq<Rec>, i: nat)
    reads records, template
  {
    1 <= i <= |records| == |start| == |ps|
    && SegmentedUpTo(records, start, ps, i)
    && template.Value() == Assemble(ps[..i])
  }

  /** One round of the inner loop of merge: the i-th segment is marked and trimmed, and
      the template grows by it. */
  method MergeStep(records: seq<Alignment>, template: Alignment, firstStrand: bool, i: nat,
                   ghost start: seq<Rec>, ghost ps: seq<Rec>)
    requires Distinct(records) && i < |records|
    requires forall k :: 0 <= k < |records| ==> records[k] != template
    requires AssembledUpTo(records, template, start, ps, i)
    requires SameScoring(start) && ps == Segments(start, firstStrand)
    modifies records[i], template
    ensures AssembledUpTo(records, template, start, ps, i + 1)
  {
    SegmentsAt(start, firstStrand, i);
    AssembleSnoc(ps, i);
    assert ps[..i][0] == ps[0];
    assert start[i].qscore.Some? == start[0].qscore.Some?;
    assert start[i - 1].qscore.Some? == start[0].qscore.Some?;
    SegmentAt(records, firstStrand, i, start, ps);
    ExtendTemplate(template, records[i - 1], records[i]);
  }

  /** The inner loop of merge: every later segment of a read is marked and trimmed, and
      the template grows by it. */
  method MergeSegments(records: seq<Alignment>, template: Alignment, firstStrand: bool,
                       ghost start: seq<Rec>, ghost ps: seq<Rec>)
    requires Distinct(records) && 2 <= |records| == |start|
    requires forall k :: 0 <= k < |records| ==> records[k] != template
    requires SameScoring(start) && ps == Segments(start, firstStrand)
    requires SegmentedUpTo(records, start, ps, 1)
    requires template.Value() == start[0]
    modifies records[1..], template
    ensures SegmentedUpTo(records, start, ps, |records|)
    ensures template.Value() == Assemble(ps)
  {
    assert ps[..1] == [start[0]];
    var i := 1;
    while i < |records|
      invariant AssembledUpTo(records, template, start, ps, i)
    {
      MergeStep(records, template, firstStrand, i, start, ps);
      i := i + 1;
    }
    assert ps[..i] == ps;
  }

  /** The body of the loop of merge over reads, for the segments of one read, sorted by
      POS: a single segment is passed on as it is, several are merged into a copy of the
      first, and the later segments are left marked and trimmed. */
  method MergeRead(records: seq<Alignment>, ghost start: seq<Rec>) returns (merged: Alignment)
    requires |records| >= 1 && Distinct(records)
    requires Values(records) == start && SameScoring(start)
    modifies records[1..]
    ensures merged.Value() == MergedRead(start)
    ensures |records| == 1 ==> merged == records[0]
    ensures |records| > 1 ==> fresh(merged)
  {
    if |records| == 1 {
      merged := records[0];
      return;
    }
    merged := new Alignment.Copy(records[0]);
    var firstStrand := IsForwardStrand(merged.flag);
    ghost var ps := Segments(start, firstStrand);
    MergeSegments(records, merged, firstStrand, start, ps);
  }

  // ---------------------------------------------------------------------------
  // merge, over all reads
  // ---------------------------------------------------------------------------

  /** Records with the same QNAME all have QSCORE or all lack it: merge fails with a
      KeyError on a read whose segments differ in this. */
  predicate ScoresPerRead(rs: seq<Rec>)
    decreases |rs|
  {
    rs != [] ==>
      && (forall b :: 0 < b < |rs| && rs[b].qname == rs[0].qname ==> rs[b].qscore.Some? == rs[0].qscore.Some?)
      && ScoresPerRead(rs[1..])
  }

  /** ScoresPerRead, pair by pair. */
  predicate ScoresAgree(rs: seq<Rec>)
  {
    forall a, b :: 0 <= a < |rs| && 0 <= b < |rs| && rs[a].qname == rs[b].qname
      ==> rs[a].qscore.Some? == rs[b].qscore.Some?
  }

  lemma {:induction false} ScoresPerReadAgree(rs: seq<Rec>)
    ensures ScoresPerRead(rs) <==> ScoresAgree(rs)
    decreases |rs|
  {
    if rs != [] {
      var tail := rs[1..];
      ScoresPerReadAgree(tail);
      assert forall k :: 0 <= k < |tail| ==> tail[k] == rs[k + 1];
      if ScoresAgree(rs) {
        forall a, b | 0 <= a < |tail| && 0 <= b < |tail| && tail[a].qname == tail[b].qname
          ensures tail[a].qscore.Some? == tail[b].qscore.Some?
        {
          assert rs[a + 1] == tail[a] && rs[b + 1] == tail[b];
        }
      }
      if ScoresPerRead(rs) {
        forall a, b | 0 <= a < |rs| && 0 <= b < |rs| && rs[a].qname == rs[b].qname
          ensures rs[a].qscore.Some? == rs[b].qscore.Some?
        {
          if a > 0 && b > 0 {
            assert rs[a] == tail[a - 1] && rs[b] == tail[b - 1];
          }
        }
      }
    }
  }

  /** Sorting keeps ScoresPerRead and the alignment of every record's scores. */
  lemma ByNameAndPosKeeps(rs: seq<Rec>)
    ensures ScoresPerRead(rs) ==> ScoresPerRead(ByNameAndPos(rs))
    ensures (forall k :: 0 <= k < |rs| ==> ScoresAligned(rs[k]))
      ==> forall k :: 0 <= k < |rs| ==> ScoresAligned(ByNameAndPos(rs)[k])
  {
    ByNameAndPosSorts(rs);
    ScoresPerReadAgree(rs);
    ScoresPerReadAgree(ByNameAndPos(rs));
  }

  /** The records merge emits for the sorted records from the run starting at i on. */
  function MergeFrom(s: seq<Rec>, i: nat): seq<Rec>
    decreases |s| - i
  {
    if i >= |s| then []
    else
      var e := RunEnd(s, i, i + 1);
      [MergedRead(s[i..e])] + MergeFrom(s, e)
  }

  /** merge, on the contents: one record per read. */
  function Merged(rs: seq<Rec>): seq<Rec>
  {
    MergeFrom(ByNameAndPos(rs), 0)
  }

  /** A run of the same QNAME has the same scoring. */
  lemma RunScoring(s: seq<Rec>, i: nat)
    requires i < |s| && ScoresPerRead(s)
    ensures SameScoring(s[i..RunEnd(s, i, i + 1)])
  {
    var e := RunEnd(s, i, i + 1);
    ScoresPerReadAgree(s);
    forall k | 0 <= k < e - i ensures s[i..e][k].qscore.Some? == s[i..e][0].qscore.Some? {
      assert s[i..e][k] == s[i + k];
    }
  }

  /** Every QNAME occurs once, in order. */
  predicate QnamesAscending(ms: seq<Rec>)
  {
    forall a, b :: 0 <= a < b < |ms| ==> StrLe(ms[a].qname, ms[b].qname) && ms[a].qname != ms[b].qname
  }

  /** The record merged from a run carries its QNAME. */
  lemma RunQname(s: seq<Rec>, i: nat)
    requires i < |s|
    ensures MergedRead(s[i..RunEnd(s, i, i + 1)]).qname == s[i].qname
  {
    MergedReadKeeps(s[i..RunEnd(s, i, i + 1)]);
  }

  /** Merging sorted records gives one record per QNAME, in order; each of them carries
      a QNAME no smaller than that of the run it starts at. */
  lemma {:induction false} MergeFromAscending(s: seq<Rec>, i: nat)
    requires QnamesSorted(s)
    ensures QnamesAscending(MergeFrom(s, i))
    ensures i < |s| ==> forall a :: 0 <= a < |MergeFrom(s, i)| ==> StrLe(s[i].qname, MergeFrom(s, i)[a].qname)
    decreases |s| - i
  {
    if i < |s| {
      var e := RunEnd(s, i, i + 1);
      MergeFromAscending(s, e);
      var m, rest := MergedRead(s[i..e]), MergeFrom(s, e);
      RunQname(s, i);
      forall a | 0 <= a < |rest| ensures StrLe(m.qname, rest[a].qname) && m.qname != rest[a].qname {
        NameAfterRun(s, i, e, rest[a].qname);
      }
      StrLeRefl(m.qname);
      ConsAscending(m, rest);
    }
  }

  lemma ConsAscending(m: Rec, rest: seq<Rec>)
    requires QnamesAscending(rest)
    requires forall a :: 0 <= a < |rest| ==> StrLe(m.qname, rest[a].qname) && m.qname != rest[a].qname
    requires StrLe(m.qname, m.qname)
    ensures QnamesAscending([m] + rest)
    ensures forall a :: 0 <= a < |[m] + rest| ==> StrLe(m.qname, ([m] + rest)[a].qname)
  {
    var ms := [m] + rest;
    forall a | 0 < a < |ms| ensures ms[a] == rest[a - 1] {
    }
  }

  /** A QNAME at or after the QNAME that ends a run is after the run's QNAME. */
  lemma NameAfterRun(s: seq<Rec>, i: nat, e: nat, q: string)
    requires QnamesSorted(s) && i < e < |s|
    requires s[e].qname != s[i].qname && StrLe(s[e].qname, q)
    ensures StrLe(s[i].qname, q) && s[i].qname != q
  {
    StrLeTrans(s[i].qname, s[e].qname, q);
    if s[i].qname == q {
      StrLeAntisym(s[i].qname, s[e].qname);
    }
  }

  /** The QNAMEs of the records from i on. */
  function QnamesFrom(s: seq<Rec>, i: nat): set<string>
  {
    set k | i <= k < |s| :: s[k].qname
  }

  /** The QNAMEs from a run start on are the run's QNAME and those after the run. */
  lemma RunQnames(s: seq<Rec>, i: nat)
    requires i < |s|
    ensures QnamesFrom(s, i) == {s[i].qname} + QnamesFrom(s, RunEnd(s, i, i + 1))
  {
    var e := RunEnd(s, i, i + 1);
    forall q | q in QnamesFrom(s, i) ensures q in {s[i].qname} + QnamesFrom(s, e) {
      var k :| i <= k < |s| && s[k].qname == q;
      if k < e {
        assert q == s[i].qname;
      }
    }
  }

  lemma QnamesCons(m: Rec, rest: seq<Rec>)
    ensures Qnames([m] + rest) == {m.qname} + Qnames(rest)
  {
    var ms := [m] + rest;
    forall q | q in Qnames(ms) ensures q in {m.qname} + Qnames(rest) {
      var k :| 0 <= k < |ms| && ms[k].qname == q;
      if k > 0 {
        assert rest[k - 1].qname == q;
      }
    }
    forall q | q in Qnames(rest) ensures q in Qnames(ms) {
      var k :| 0 <= k < |rest| && rest[k].qname == q;
      assert ms[k + 1].qname == q;
    }
    assert ms[0].qname == m.qname;
  }

  /** Merging keeps the set of QNAMEs. */
  lemma {:induction false} MergeFromQnames(s: seq<Rec>, i: nat)
    ensures Qnames(MergeFrom(s, i)) == QnamesFrom(s, i)
    decreases |s| - i
  {
    if i < |s| {
      var e := RunEnd(s, i, i + 1);
      MergeFromQnames(s, e);
      RunQname(s, i);
      RunQnames(s, i);
      QnamesCons(MergedRead(s[i..e]), MergeFrom(s, e));
    } else {
      assert QnamesFrom(s, i) == {};
    }
  }

  /** merge emits exactly one record for every QNAME of its input, in the order of
      QNAMEs. */
  lemma MergedQnames(rs: seq<Rec>)
    ensures QnamesAscending(Merged(rs))
    ensures forall a, b :: 0 <= a < |Merged(rs)| && 0 <= b < |Merged(rs)| && a != b ==>
              Merged(rs)[a].qname != Merged(rs)[b].qname
    ensures Qnames(Merged(rs)) == Qnames(rs)
  {
    var s := ByNameAndPos(rs);
    SortedQnames(rs);
    MergeFromAscending(s, 0);
    MergeFromQnames(s, 0);
    ByNameAndPosQnames(rs);
    assert QnamesFrom(s, 0) == Qnames(s);
  }

  /** QSCORE entries stay aligned with MIDSV cells through the merge of every run. */
  lemma {:induction false} MergeFromAligned(s: seq<Rec>, i: nat)
    requires ScoresPerRead(s)
    requires forall k :: 0 <= k < |s| ==> ScoresAligned(s[k])
    ensures forall a :: 0 <= a < |MergeFrom(s, i)| ==> ScoresAligned(MergeFrom(s, i)[a])
    decreases |s| - i
  {
    if i < |s| {
      var e := RunEnd(s, i, i + 1);
      MergeFromAligned(s, e);
      RunScoring(s, i);
      forall k | 0 <= k < e - i ensures ScoresAligned(s[i..e][k]) {
        assert s[i..e][k] == s[i + k];
      }
      MergedReadAligned(s[i..e]);
      var ms, rest := MergeFrom(s, i), MergeFrom(s, e);
      forall a | 0 < a < |ms| ensures ms[a] == rest[a - 1] {
      }
    }
  }

  /** With every record's QSCORE entries aligned to its MIDSV cells, so are those of the
      merged records. */
  lemma MergedAligned(rs: seq<Rec>)
    requires ScoresPerRead(rs)
    requires forall k :: 0 <= k < |rs| ==> ScoresAligned(rs[k])
    ensures forall a :: 0 <= a < |Merged(rs)| ==> ScoresAligned(Merged(rs)[a])
  {
    ByNameAndPosKeeps(rs);
    MergeFromAligned(ByNameAndPos(rs), 0);
  }

  /** The state of the loop of merge before the read whose records start at i: the
      records from i on are untouched, and the records merged so far followed by those
      the rest gives make up target. */
  predicate MergedUpTo(sorted: seq<Alignment>, sv: seq<Rec>, merged: seq<Alignment>, i: nat, target: seq<Rec>)
    reads sorted
    reads merged
  {
    && i <= |sorted| == |sv| && Distinct(sorted) && ScoresPerRead(sv)
    && (forall k :: i <= k < |sorted| ==> sorted[k].Value() == sv[k])
    && Distinct(merged)
    && (forall a, k :: 0 <= a < |merged| && i <= k < |sorted| ==> merged[a] != sorted[k])
    && Values(merged) + MergeFrom(sv, i) == target
  }

  /** One turn of the loop of merge: the read whose records start at i is merged and its
      record appended to those merged so far. */
  method MergeNext(sorted: seq<Alignment>, i: nat, ghost sv: seq<Rec>,
                   merged: seq<Alignment>, ghost target: seq<Rec>, ghost made: set<Alignment>)
    returns (e: nat, more: seq<Alignment>, ghost added: set<Alignment>)
    requires i < |sorted| && MergedUpTo(sorted, sv, merged, i, target)
    requires Made(merged, sorted, made)
    modifies sorted
    ensures i < e && MergedUpTo(sorted, sv, more, e, target)
    ensures Made(more, sorted, made + added) && fresh(added)
  {
    e := FindRunEnd(sorted, i, sv);
    more, added := AppendRun(sorted, i, e, sv, merged, target, made);
  }

  /** The record merged from the run sorted[i..e], appended. */
  method AppendRun(sorted: seq<Alignment>, i: nat, e: nat, ghost sv: seq<Rec>,
                   merged: seq<Alignment>, ghost target: seq<Rec>, ghost made: set<Alignment>)
    returns (more: seq<Alignment>, ghost added: set<Alignment>)
    requires i < |sorted| && MergedUpTo(sorted, sv, merged, i, target)
    requires e == RunEnd(sv, i, i + 1)
    requires Made(merged, sorted, made)
    modifies sorted
    ensures MergedUpTo(sorted, sv, more, e, target)
    ensures Made(more, sorted, made + added) && fresh(added)
  {
    ghost var prefix := Values(merged);
    MergeFromStep(sv, i, prefix);
    RunScoring(sv, i);
    var m := MergeRun(sorted, i, e, sv, merged);
    ValuesUnchanged(merged);
    more := merged + [m];
    added := if m in sorted then {} else {m};
    MadePush(merged, m, sorted, made, added);
    MergedPush(sorted, sv, merged, m, e, target);
  }

  /** Appending the record merged from a run keeps the state of the loop. */
  lemma MergedPush(sorted: seq<Alignment>, sv: seq<Rec>, merged: seq<Alignment>, m: Alignment, e: nat, target: seq<Rec>)
    requires e <= |sorted| == |sv| && Distinct(sorted) && ScoresPerRead(sv)
    requires forall k :: e <= k < |sorted| ==> sorted[k].Value() == sv[k]
    requires Distinct(merged) && m !in merged
    requires forall a, k :: 0 <= a < |merged| && e <= k < |sorted| ==> merged[a] != sorted[k]
    requires forall k :: e <= k < |sorted| ==> m != sorted[k]
    requires (Values(merged) + [m.Value()]) + MergeFrom(sv, e) == target
    ensures MergedUpTo(sorted, sv, merged + [m], e, target)
  {
    PushDistinct(merged, m, sorted, e);
    ValuesPush(merged, m);
  }

  lemma MadePush(merged: seq<Alignment>, m: Alignment, sorted: seq<Alignment>, made: set<Alignment>, added: set<Alignment>)
    requires Made(merged, sorted, made) && (m in sorted || m in added)
    ensures Made(merged + [m], sorted, made + added)
  {
  }

  lemma PushDistinct(merged: seq<Alignment>, m: Alignment, sorted: seq<Alignment>, e: nat)
    requires Distinct(merged) && m !in merged
    requires forall a, k :: 0 <= a < |merged| && e <= k < |sorted| ==> merged[a] != sorted[k]
    requires forall k :: e <= k < |sorted| ==> m != sorted[k]
    ensures Distinct(merged + [m])
    ensures forall a, k :: 0 <= a < |merged + [m]| && e <= k < |sorted| ==> (merged + [m])[a] != sorted[k]
  {
  }

  /** The records of one read, sorted[i..e], merged; the records merged before are not
      among them and stay as they are. */
  method MergeRun(sorted: seq<Alignment>, i: nat, e: nat, ghost sv: seq<Rec>, ghost merged: seq<Alignment>)
    returns (m: Alignment)
    requires Distinct(sorted) && i < e <= |sorted| == |sv|
    requires forall k :: i <= k < |sorted| ==> sorted[k].Value() == sv[k]
    requires SameScoring(sv[i..e])
    requires forall a, k :: 0 <= a < |merged| && i <= k < |sorted| ==> merged[a] != sorted[k]
    modifies sorted[i + 1..e]
    ensures m.Value() == MergedRead(sv[i..e])
    ensures m == sorted[i] || fresh(m)
    ensures m !in merged && forall k :: e <= k < |sorted| ==> m != sorted[k]
    ensures forall a :: 0 <= a < |merged| ==> unchanged(merged[a])
    ensures forall k :: e <= k < |sorted| ==> unchanged(sorted[k])
  {
    var records := sorted[i..e];
    ValuesAre(records, sv[i..e]);
    assert records[1..] == sorted[i + 1..e];
    SliceOutside(sorted, i + 1, e, merged);
    DistinctOutside(sorted, i + 1, e);
    m := MergeRead(records, sv[i..e]);
  }

  /** The loop of merge over the sorted records. */
  method MergeSorted(sorted: seq<Alignment>, ghost sv: seq<Rec>, ghost target: seq<Rec>)
    returns (merged: seq<Alignment>)
    requires MergedUpTo(sorted, sv, [], 0, target)
    modifies sorted
    ensures Distinct(merged) && Values(merged) == target
    ensures forall a :: 0 <= a < |merged| ==> merged[a] in sorted || fresh(merged[a])
  {
    merged := [];
    ghost var made: set<Alignment> := {};
    var i := 0;
    while i < |sorted|
      invariant MergedUpTo(sorted, sv, merged, i, target)
      invariant Made(merged, sorted, made) && fresh(made)
      decreases |sorted| - i
    {
      ghost var added;
      i, merged, added := MergeNext(sorted, i, sv, merged, target, made);
      made := made + added;
    }
  }

  /** Every record merged so far is one of the sorted records or one the loop made. */
  ghost predicate Made(merged: seq<Alignment>, sorted: seq<Alignment>, made: set<Alignment>)
  {
    forall a :: 0 <= a < |merged| ==> merged[a] in sorted || merged[a] in made
  }

  /** Before the loop of merge nothing is merged yet. */
  lemma MergedUpToStart(sorted: seq<Alignment>, sv: seq<Rec>)
    requires Distinct(sorted) && ScoresPerRead(sv) && Values(sorted) == sv
    ensures MergedUpTo(sorted, sv, [], 0, MergeFrom(sv, 0))
  {
    assert Values([]) == [];
  }

  /** merge: the records are sorted by [QNAME, POS] and the records of every read merged
      into one, which is the read's only record or a new one. */
  method Merge(alignments: seq<Alignment>) returns (merged: seq<Alignment>)
    requires Distinct(alignments)
    requires ScoresPerRead(Values(alignments))
    modifies alignments
    ensures Distinct(merged)
    ensures Values(merged) == Merged(old(Values(alignments)))
    ensures forall a :: 0 <= a < |merged| ==> merged[a] in alignments || fresh(merged[a])
  {
    ghost var start := Values(alignments);
    var sorted := SortByNameAndPos(alignments, start);
    ghost var sv := ByNameAndPos(start);
    ByNameAndPosKeeps(start);
    MergedUpToStart(sorted, sv);
    merged := MergeSorted(sorted, sv, Merged(start));
  }

  lemma MergeFromStep(s: seq<Rec>, i: nat, prefix: seq<Rec>)
    requires i < |s|
    ensures prefix + MergeFrom(s, i)
      == (prefix + [MergedRead(s[i..RunEnd(s, i, i + 1)])]) + MergeFrom(s, RunEnd(s, i, i + 1))
  {
  }

  // ---------------------------------------------------------------------------
  // pad
  // ---------------------------------------------------------------------------

  /** Every record's RNAME has an @SQ length: pad and remove_different_length fail with a
      KeyError otherwise. */
  predicate KnownReferences(rs: seq<Rec>, sqheaders: map<string, int>)
  {
    forall k :: 0 <= k < |rs| ==> rs[k].rname in sqheaders
  }

  /** The cells pad puts in front of a record: one "=N" for every reference base before
      POS. */
  function LeftPad(r: Rec): nat
  {
    Max(0, r.pos - 1)
  }

  /** The cells pad puts behind a record: as many as the reference is longer than the
      left padding and the cells together. */
  function RightPad(r: Rec, refLength: int): nat
  {
    Max(0, refLength - (|r.midsv| + LeftPad(r)))
  }

  /** pad, for one record: "=N" cells and, with QSCORE, "-1" entries around the old
      ones. */
  function Padded(r: Rec, refLength: int): Rec
  {
    var left, right := LeftPad(r), RightPad(r, refLength);
    r.(midsv := Repeat("=N", left) + r.midsv + Repeat("=N", right),
       qscore := if r.qscore.Some? then Some(Repeat("-1", left) + r.qscore.value + Repeat("-1", right)) else None)
  }

  /** A padded record spans the reference, or more when its cells run past the reference
      end: the old cells sit from the left padding on, with "=N" before and after them; a
      record that starts at POS 1 or later and ends within the reference then has exactly
      the reference length. Only MIDSV and QSCORE change, and scores stay aligned. */
  lemma PaddedShape(r: Rec, refLength: int)
    ensures |Padded(r, refLength).midsv| == Max(refLength, LeftPad(r) + |r.midsv|)
    ensures Padded(r, refLength).midsv[LeftPad(r)..LeftPad(r) + |r.midsv|] == r.midsv
    ensures forall k :: 0 <= k < LeftPad(r) ==> Padded(r, refLength).midsv[k] == "=N"
    ensures forall k :: LeftPad(r) + |r.midsv| <= k < |Padded(r, refLength).midsv| ==>
              Padded(r, refLength).midsv[k] == "=N"
    ensures r.pos >= 1 && r.pos - 1 + |r.midsv| <= refLength ==> |Padded(r, refLength).midsv| == refLength
    ensures Padded(r, refLength).(midsv := r.midsv, qscore := r.qscore) == r
    ensures ScoresAligned(r) ==> ScoresAligned(Padded(r, refLength))
  {
    var left, right := LeftPad(r), RightPad(r, refLength);
    var p := Padded(r, refLength);
    assert p.midsv == Repeat("=N", left) + r.midsv + Repeat("=N", right);
    assert p.midsv[left..left + |r.midsv|] == r.midsv;
  }

  /** pad on the contents of a list. */
  function PaddedAll(rs: seq<Rec>, sqheaders: map<string, int>): (ps: seq<Rec>)
    requires KnownReferences(rs, sqheaders)
    ensures |ps| == |rs|
  {
    if rs == [] then [] else [Padded(rs[0], sqheaders[rs[0].rname])] + PaddedAll(rs[1..], sqheaders)
  }

  lemma {:induction false} PaddedAllAt(rs: seq<Rec>, sqheaders: map<string, int>, k: nat)
    requires KnownReferences(rs, sqheaders) && k < |rs|
    ensures PaddedAll(rs, sqheaders)[k] == Padded(rs[k], sqheaders[rs[k].rname])
  {
    if k > 0 {
      PaddedAllAt(rs[1..], sqheaders, k - 1);
    }
  }

  method PadOne(alignment: Alignment, refLength: int)
    modifies alignment
    ensures alignment.Value() == Padded(old(alignment.Value()), refLength)
  {
    var left := Max(0, alignment.pos - 1);
    var right := Max(0, refLength - (|alignment.midsv| + left));
    alignment.midsv := Repeat("=N", left) + alignment.midsv + Repeat("=N", right);
    if alignment.qscore.Some? {
      alignment.qscore := Some(Repeat("-1", left) + alignment.qscore.value + Repeat("-1", right));
    }
  }

  /** One turn of the loop of pad: the record at n is padded. */
  method PadAt(records: seq<Alignment>, sqheaders: map<string, int>, n: nat, ghost start: seq<Rec>)
    requires Distinct(records) && n < |records| == |start|
    requires KnownReferences(start, sqheaders)
    requires UpdatedUpTo(records, start, PaddedAll(start, sqheaders), n)
    modifies records[n]
    ensures UpdatedUpTo(records, start, PaddedAll(start, sqheaders), n + 1)
  {
    PaddedAllAt(start, sqheaders, n);
    PadOne(records[n], sqheaders[records[n].rname]);
  }

  /** pad: every record padded to the length of its reference; the list returned is the
      list given. */
  method Pad(alignments: seq<Alignment>, sqheaders: map<string, int>, ghost start: seq<Rec>)
    returns (padded: seq<Alignment>)
    requires Distinct(alignments) && Values(alignments) == start
    requires KnownReferences(start, sqheaders)
    modifies alignments
    ensures padded == alignments
    ensures Values(padded) == PaddedAll(start, sqheaders)
  {
    var n := 0;
    while n < |alignments|
      invariant n <= |alignments|
      invariant UpdatedUpTo(alignments, start, PaddedAll(start, sqheaders), n)
    {
      PadAt(alignments, sqheaders, n, start);
      n := n + 1;
    }
    padded := alignments;
    ValuesAre(padded, PaddedAll(start, sqheaders));
  }

  // ---------------------------------------------------------------------------
  // remove_different_length
  // ---------------------------------------------------------------------------

  /** Whether a record has as many MIDSV cells as its reference has bases. */
  predicate ReferenceLength(r: Rec, sqheaders: map<string, int>)
    requires r.rname in sqheaders
  {
    |r.midsv| == sqheaders[r.rname]
  }

  /** remove_different_length on the contents of a list. */
  function KeepLength(rs: seq<Rec>, sqheaders: map<string, int>): (kept: seq<Rec>)
    requires KnownReferences(rs, sqheaders)
    ensures |kept| <= |rs|
  {
    if rs == [] then []
    else (if ReferenceLength(rs[0], sqheaders) then [rs[0]] else []) + KeepLength(rs[1..], sqheaders)
  }

  /** Filtering a concatenation filters each part: the records kept stay in their order. */
  lemma {:induction false} KeepLengthConcat(a: seq<Rec>, b: seq<Rec>, sqheaders: map<string, int>)
    requires KnownReferences(a, sqheaders) && KnownReferences(b, sqheaders)
    ensures KnownReferences(a + b, sqheaders)
    ensures KeepLength(a + b, sqheaders) == KeepLength(a, sqheaders) + KeepLength(b, sqheaders)
    decreases |a|
  {
    if a != [] {
      assert (a + b)[1..] == a[1..] + b;
      KeepLengthConcat(a[1..], b, sqheaders);
    } else {
      assert a + b == b;
    }
  }

  /** A record is kept exactly when it is one of the records and has the length of its
      reference. */
  lemma {:induction false} KeepLengthMembers(rs: seq<Rec>, sqheaders: map<string, int>)
    requires KnownReferences(rs, sqheaders)
    ensures forall r :: r in KeepLength(rs, sqheaders) <==> r in rs && ReferenceLength(r, sqheaders)
    decreases |rs|
  {
    if rs != [] {
      KeepLengthMembers(rs[1..], sqheaders);
      assert forall r :: r in rs <==> r == rs[0] || r in rs[1..];
    }
  }

  /** remove_different_length: the records of the reference length, in their order; a
      record is not changed, and picked says where each kept one was. */
  method RemoveDifferentLength(alignments: seq<Alignment>, sqheaders: map<string, int>)
    returns (kept: seq<Alignment>, ghost picked: seq<nat>)
    requires KnownReferences(Values(alignments), sqheaders)
    ensures Values(kept) == KeepLength(Values(alignments), sqheaders)
    ensures |picked| == |kept|
    ensures forall a :: 0 <= a < |kept| ==> picked[a] < |alignments| && kept[a] == alignments[picked[a]]
    ensures forall a, b :: 0 <= a < b < |picked| ==> picked[a] < picked[b]
    ensures forall r :: r in kept ==> r in alignments
    ensures Distinct(alignments) ==> Distinct(kept)
  {
    ghost var rs := Values(alignments);
    kept, picked := [], [];
    KeptStart(alignments, rs, sqheaders);
    var i := 0;
    while i < |alignments|
      invariant KeptUpTo(alignments, rs, sqheaders, kept, picked, i)
      decreases |alignments| - i
    {
      kept, picked := KeepNext(alignments, rs, sqheaders, kept, picked, i);
      i := i + 1;
    }
    KeptAll(alignments, rs, sqheaders, kept, picked);
  }

  lemma KeptStart(alignments: seq<Alignment>, rs: seq<Rec>, sqheaders: map<string, int>)
    requires Values(alignments) == rs && KnownReferences(rs, sqheaders)
    ensures KeptUpTo(alignments, rs, sqheaders, [], [], 0)
  {
    assert rs[..0] == [];
    assert Values([]) == [];
  }

  /** After the last record, the loop has kept every record of the reference length. */
  lemma KeptAll(alignments: seq<Alignment>, rs: seq<Rec>, sqheaders: map<string, int>,
                kept: seq<Alignment>, picked: seq<nat>)
    requires KeptUpTo(alignments, rs, sqheaders, kept, picked, |alignments|)
    ensures Values(kept) == KeepLength(rs, sqheaders)
    ensures |picked| == |kept|
    ensures forall a :: 0 <= a < |kept| ==> picked[a] < |alignments| && kept[a] == alignments[picked[a]]
    ensures forall a, b :: 0 <= a < b < |picked| ==> picked[a] < picked[b]
    ensures forall r :: r in kept ==> r in alignments
    ensures Distinct(alignments) ==> Distinct(kept)
  {
    assert rs[..|alignments|] == rs;
    PickedDistinct(alignments, kept, picked);
  }

  /** The loop of remove_different_length before the record at i. */
  ghost predicate KeptUpTo(alignments: seq<Alignment>, rs: seq<Rec>, sqheaders: map<string, int>,
                           kept: seq<Alignment>, picked: seq<nat>, i: nat)
    reads alignments, kept
  {
    && i <= |alignments| == |rs| && Values(alignments) == rs && KnownReferences(rs, sqheaders)
    && |picked| == |kept|
    && (forall a :: 0 <= a < |kept| ==> picked[a] < i && kept[a] == alignments[picked[a]])
    && (forall a, b :: 0 <= a < b < |picked| ==> picked[a] < picked[b])
    && Values(kept) == KeepLength(rs[..i], sqheaders)
  }

  /** One turn of the loop of remove_different_length: the record at i is kept when it has
      the length of its reference. */
  method KeepNext(alignments: seq<Alignment>, ghost rs: seq<Rec>, sqheaders: map<string, int>,
                  kept: seq<Alignment>, ghost picked: seq<nat>, i: nat)
    returns (more: seq<Alignment>, ghost morePicked: seq<nat>)
    requires i < |alignments| && KeptUpTo(alignments, rs, sqheaders, kept, picked, i)
    ensures KeptUpTo(alignments, rs, sqheaders, more, morePicked, i + 1)
  {
    KeepStep(rs, i, sqheaders);
    var alignment := alignments[i];
    more, morePicked := kept, picked;
    if |alignment.midsv| == sqheaders[alignment.rname] {
      ValuesPush(kept, alignment);
      more, morePicked := kept + [alignment], picked + [i];
    }
  }

  /** Records picked at increasing places of a list without repeats do not repeat. */
  lemma PickedDistinct(alignments: seq<Alignment>, kept: seq<Alignment>, picked: seq<nat>)
    requires |picked| == |kept|
    requires forall a :: 0 <= a < |kept| ==> picked[a] < |alignments| && kept[a] == alignments[picked[a]]
    requires forall a, b :: 0 <= a < b < |picked| ==> picked[a] < picked[b]
    ensures Distinct(alignments) ==> Distinct(kept)
  {
  }

  /** One more record through the filter. */
  lemma KeepStep(rs: seq<Rec>, i: nat, sqheaders: map<string, int>)
    requires KnownReferences(rs, sqheaders) && i < |rs|
    ensures KnownReferences(rs[..i], sqheaders)
    ensures KeepLength(rs[..i + 1], sqheaders)
      == KeepLength(rs[..i], sqheaders) + (if ReferenceLength(rs[i], sqheaders) then [rs[i]] else [])
  {
    assert rs[..i + 1] == rs[..i] + [rs[i]];
    KeepLengthConcat(rs[..i], [rs[i]], sqheaders);
  }

  // ---------------------------------------------------------------------------
  // select
  // ---------------------------------------------------------------------------

  /** The keys select removes: the selectable keys not kept. keep=None stands as the
      empty set, which select treats alike. */
  function Deleted(keep: set<string>): set<string>
  {
    SelectableKeys - keep
  }

  /** The keys a record still has: always QNAME, RNAME and MIDSV, QSCORE when scored, and
      the selectable keys not removed. */
  function Fields(r: Rec): set<string>
  {
    {"QNAME", "RNAME", "MIDSV"} + (if r.qscore.Some? then {"QSCORE"} else {}) + (SelectableKeys - r.removed)
  }

  /** Every record still has the keys: select fails with a KeyError on one already
      removed. */
  predicate Present(rs: seq<Rec>, keys: set<string>)
  {
    forall k :: 0 <= k < |rs| ==> rs[k].removed !! keys
  }

  /** select, for one record. */
  function Selected(r: Rec, keep: set<string>): Rec
  {
    r.(removed := r.removed + Deleted(keep))
  }

  /** select removes exactly the selectable keys not kept, and nothing else changes; on
      a record with all its keys, what is left is QNAME, RNAME, MIDSV, QSCORE when scored,
      and the kept selectable keys. */
  lemma SelectedFields(r: Rec, keep: set<string>)
    requires r.removed !! Deleted(keep)
    ensures Fields(Selected(r, keep)) == Fields(r) - Deleted(keep)
    ensures Selected(r, keep).(removed := r.removed) == r
    ensures r.removed == {} ==>
      Fields(Selected(r, keep))
        == {"QNAME", "RNAME", "MIDSV"} + (if r.qscore.Some? then {"QSCORE"} else {}) + (SelectableKeys * keep)
  {
  }

  method SelectOne(record: Alignment, keep: set<string>)
    requires record.removed !! Deleted(keep)
    modifies record
    ensures record.Value() == Selected(old(record.Value()), keep)
  {
    var keys := SelectableKeys - keep;
    ghost var start := record.removed;
    while keys != {}
      invariant keys <= Deleted(keep)
      invariant record.removed == start + (Deleted(keep) - keys)
      invariant record.Value() == old(record.Value()).(removed := record.removed)
      decreases keys
    {
      var key :| key in keys;
      record.removed := record.removed + {key};
      keys := keys - {key};
    }
  }

  /** select on the contents of a list. */
  function SelectedAll(rs: seq<Rec>, keep: set<string>): (ss: seq<Rec>)
    ensures |ss| == |rs|
  {
    if rs == [] then [] else [Selected(rs[0], keep)] + SelectedAll(rs[1..], keep)
  }

  lemma {:induction false} SelectedAllAt(rs: seq<Rec>, keep: set<string>, k: nat)
    requires k < |rs|
    ensures SelectedAll(rs, keep)[k] == Selected(rs[k], keep)
  {
    if k > 0 {
      SelectedAllAt(rs[1..], keep, k - 1);
    }
  }

  /** One turn of the loop of select: the record at n loses the keys not kept. */
  method SelectAt(records: seq<Alignment>, keep: set<string>, n: nat, ghost start: seq<Rec>)
    requires Distinct(records) && n < |records| == |start|
    requires Present(start, Deleted(keep))
    requires UpdatedUpTo(records, start, SelectedAll(start, keep), n)
    modifies records[n]
    ensures UpdatedUpTo(records, start, SelectedAll(start, keep), n + 1)
  {
    SelectedAllAt(start, keep, n);
    SelectOne(records[n], keep);
  }

  /** select: every record keeps QNAME, RNAME, MIDSV, QSCORE and the selectable keys asked
      for; the list returned is the list given. */
  method Select(alignments: seq<Alignment>, keep: set<string>, ghost start: seq<Rec>)
    returns (selected: seq<Alignment>)
    requires Distinct(alignments) && Values(alignments) == start
    requires Present(start, Deleted(keep))
    modifies alignments
    ensures selected == alignments
    ensures Values(selected) == SelectedAll(start, keep)
  {
    var n := 0;
    while n < |alignments|
      invariant n <= |alignments|
      invariant UpdatedUpTo(alignments, start, SelectedAll(start, keep), n)
    {
      SelectAt(alignments, keep, n, start);
      n := n + 1;
    }
    selected := alignments;
    ValuesAre(selected, SelectedAll(start, keep));
  }

  // ---------------------------------------------------------------------------
  // keys and references carried through the stages
  // ---------------------------------------------------------------------------

  /** The records merged from the runs from i on carry the RNAME and the removed keys of
      a record of those runs. */
  lemma {:induction false} MergeFromCarries(s: seq<Rec>, i: nat, sqheaders: map<string, int>, keys: set<string>)
    ensures KnownReferences(s, sqheaders) ==> KnownReferences(MergeFrom(s, i), sqheaders)
    ensures Present(s, keys) ==> Present(MergeFrom(s, i), keys)
    decreases |s| - i
  {
    if i < |s| {
      var e := RunEnd(s, i, i + 1);
      MergeFromCarries(s, e, sqheaders, keys);
      MergedReadKeeps(s[i..e]);
      var ms, rest := MergeFrom(s, i), MergeFrom(s, e);
      forall a | 0 < a < |ms| ensures ms[a] == rest[a - 1] {
      }
    }
  }

  /** merge keeps every record's RNAME known and its keys present. */
  lemma MergedCarries(rs: seq<Rec>, sqheaders: map<string, int>, keys: set<string>)
    ensures KnownReferences(rs, sqheaders) ==> KnownReferences(Merged(rs), sqheaders)
    ensures Present(rs, keys) ==> Present(Merged(rs), keys)
  {
    ByNameAndPosSorts(rs);
    MergeFromCarries(ByNameAndPos(rs), 0, sqheaders, keys);
  }

  /** pad changes MIDSV and QSCORE only, record by record. */
  lemma PaddedAllKeeps(rs: seq<Rec>, sqheaders: map<string, int>)
    requires KnownReferences(rs, sqheaders)
    ensures forall k :: 0 <= k < |rs| ==>
      PaddedAll(rs, sqheaders)[k].(midsv := rs[k].midsv, qscore := rs[k].qscore) == rs[k]
    ensures KnownReferences(PaddedAll(rs, sqheaders), sqheaders)
  {
    forall k | 0 <= k < |rs|
      ensures PaddedAll(rs, sqheaders)[k].(midsv := rs[k].midsv, qscore := rs[k].qscore) == rs[k]
    {
      PaddedAllAt(rs, sqheaders, k);
      PaddedShape(rs[k], sqheaders[rs[k].rname]);
    }
  }

  /** remove_different_length keeps the records in their order: QNAMEs that ascend still
      do. */
  lemma {:induction false} KeepLengthAscending(rs: seq<Rec>, sqheaders: map<string, int>)
    requires KnownReferences(rs, sqheaders) && QnamesAscending(rs)
    ensures QnamesAscending(KeepLength(rs, sqheaders))
    decreases |rs|
  {
    if rs != [] {
      var tail := rs[1..];
      KeepLengthAscending(tail, sqheaders);
      KeepLengthMembers(tail, sqheaders);
      var rest := KeepLength(tail, sqheaders);
      if ReferenceLength(rs[0], sqheaders) {
        forall a | 0 <= a < |rest|
          ensures StrLe(rs[0].qname, rest[a].qname) && rs[0].qname != rest[a].qname
        {
          assert rest[a] in rest;
          var j :| 0 <= j < |tail| && tail[j] == rest[a];
          assert rs[j + 1] == rest[a];
        }
        StrLeRefl(rs[0].qname);
        ConsAscending(rs[0], rest);
      } else {
        assert KeepLength(rs, sqheaders) == rest;
      }
    }
  }

  // ---------------------------------------------------------------------------
  // polish
  // ---------------------------------------------------------------------------

  /** The records merge and pad make of the records given. */
  function MergedPadded(rs: seq<Rec>, sqheaders: map<string, int>): (ps: seq<Rec>)
    requires KnownReferences(rs, sqheaders)
    ensures KnownReferences(ps, sqheaders)
  {
    MergedCarries(rs, sqheaders, {});
    PaddedAllKeeps(Merged(rs), sqheaders);
    PaddedAll(Merged(rs), sqheaders)
  }

  /** polish on the contents: merge, pad, remove_different_length, then select. */
  function Polished(rs: seq<Rec>, sqheaders: map<string, int>, keep: set<string>): seq<Rec>
    requires KnownReferences(rs, sqheaders)
  {
    SelectedAll(KeepLength(MergedPadded(rs, sqheaders), sqheaders), keep)
  }

  /** A record merge and pad make from the records given is, but for MIDSV and QSCORE, the
      merged record at its place: same QNAME, RNAME and keys. */
  lemma MergedPaddedAt(rs: seq<Rec>, sqheaders: map<string, int>, j: nat)
    requires KnownReferences(rs, sqheaders) && j < |MergedPadded(rs, sqheaders)|
    ensures j < |Merged(rs)|
    ensures MergedPadded(rs, sqheaders)[j].(midsv := Merged(rs)[j].midsv, qscore := Merged(rs)[j].qscore)
      == Merged(rs)[j]
  {
    MergedCarries(rs, sqheaders, {});
    PaddedAllKeeps(Merged(rs), sqheaders);
  }

  /** The records remove_different_length keeps of those merge and pad make are some of
      them: a record is kept exactly when it has the length of its reference. */
  lemma KeptOfMergedPadded(rs: seq<Rec>, sqheaders: map<string, int>)
    requires KnownReferences(rs, sqheaders)
    ensures var pads := MergedPadded(rs, sqheaders);
      forall r :: r in KeepLength(pads, sqheaders) <==> r in pads && ReferenceLength(r, sqheaders)
  {
    KeepLengthMembers(MergedPadded(rs, sqheaders), sqheaders);
  }

  /** Keys present in every record given are present in every record that reaches
      select. */
  lemma PolishedPresent(rs: seq<Rec>, sqheaders: map<string, int>, keys: set<string>)
    requires KnownReferences(rs, sqheaders) && Present(rs, keys)
    ensures Present(KeepLength(MergedPadded(rs, sqheaders), sqheaders), keys)
  {
    var pads := MergedPadded(rs, sqheaders);
    var kept := KeepLength(pads, sqheaders);
    MergedCarries(rs, sqheaders, keys);
    KeptOfMergedPadded(rs, sqheaders);
    forall a | 0 <= a < |kept| ensures kept[a].removed !! keys {
      assert kept[a] in pads;
      var j :| 0 <= j < |pads| && pads[j] == kept[a];
      MergedPaddedAt(rs, sqheaders, j);
    }
  }

  /** A record polish emits is a record of merge and pad with the keys select removes
      gone. */
  lemma PolishedAt(rs: seq<Rec>, sqheaders: map<string, int>, keep: set<string>, a: nat)
    requires KnownReferences(rs, sqheaders) && a < |Polished(rs, sqheaders, keep)|
    ensures var kept := KeepLength(MergedPadded(rs, sqheaders), sqheaders);
      a < |kept| && Polished(rs, sqheaders, keep)[a] == Selected(kept[a], keep)
      && kept[a] in MergedPadded(rs, sqheaders) && ReferenceLength(kept[a], sqheaders)
  {
    var kept := KeepLength(MergedPadded(rs, sqheaders), sqheaders);
    SelectedAllAt(kept, keep, a);
    KeptOfMergedPadded(rs, sqheaders);
    assert kept[a] in kept;
  }

  /** polish emits at most one record per read, in the order of QNAMEs, and only reads
      it was given. */
  lemma PolishedOrder(rs: seq<Rec>, sqheaders: map<string, int>, keep: set<string>)
    requires KnownReferences(rs, sqheaders)
    ensures QnamesAscending(Polished(rs, sqheaders, keep))
    ensures Qnames(Polished(rs, sqheaders, keep)) <= Qnames(rs)
  {
    var ms, pads := Merged(rs), MergedPadded(rs, sqheaders);
    var ps := Polished(rs, sqheaders, keep);
    var kept := KeepLength(pads, sqheaders);
    MergedQnames(rs);
    forall a | 0 <= a < |pads| ensures pads[a].qname == ms[a].qname {
      MergedPaddedAt(rs, sqheaders, a);
    }
    KeepLengthAscending(pads, sqheaders);
    forall a | 0 <= a < |ps| ensures ps[a].qname == kept[a].qname {
      PolishedAt(rs, sqheaders, keep, a);
    }
    forall q | q in Qnames(ps) ensures q in Qnames(ms) {
      var a :| 0 <= a < |ps| && ps[a].qname == q;
      PolishedAt(rs, sqheaders, keep, a);
      var j :| 0 <= j < |pads| && pads[j] == kept[a];
      MergedPaddedAt(rs, sqheaders, j);
    }
  }

  /** A record polish emits spans its reference exactly and comes from merge and pad; a
      record of merge and pad of the reference length is emitted. */
  lemma PolishedLengths(rs: seq<Rec>, sqheaders: map<string, int>, keep: set<string>)
    requires KnownReferences(rs, sqheaders)
    ensures var ps := Polished(rs, sqheaders, keep);
      forall a :: 0 <= a < |ps| ==> ps[a].rname in sqheaders && |ps[a].midsv| == sqheaders[ps[a].rname]
    ensures var ps, pads := Polished(rs, sqheaders, keep), MergedPadded(rs, sqheaders);
      forall a :: 0 <= a < |ps| ==> exists m :: m in pads && ps[a] == Selected(m, keep)
    ensures var ps, pads := Polished(rs, sqheaders, keep), MergedPadded(rs, sqheaders);
      forall m :: m in pads && ReferenceLength(m, sqheaders) ==> Selected(m, keep) in ps
  {
    var ps, pads := Polished(rs, sqheaders, keep), MergedPadded(rs, sqheaders);
    var kept := KeepLength(pads, sqheaders);
    forall a | 0 <= a < |ps| ensures ps[a].rname in sqheaders && |ps[a].midsv| == sqheaders[ps[a].rname]
      && exists m :: m in pads && ps[a] == Selected(m, keep)
    {
      PolishedAt(rs, sqheaders, keep, a);
    }
    KeptOfMergedPadded(rs, sqheaders);
    forall m | m in pads && ReferenceLength(m, sqheaders) ensures Selected(m, keep) in ps {
      var b :| 0 <= b < |kept| && kept[b] == m;
      SelectedAllAt(kept, keep, b);
    }
  }

  /** With every selectable key present in the records given, a record polish emits has
      QNAME, RNAME, MIDSV, QSCORE when scored, and the selectable keys kept. */
  lemma PolishedFields(rs: seq<Rec>, sqheaders: map<string, int>, keep: set<string>)
    requires KnownReferences(rs, sqheaders) && Present(rs, SelectableKeys)
    ensures var ps := Polished(rs, sqheaders, keep);
      forall a :: 0 <= a < |ps| ==>
        Fields(ps[a]) == {"QNAME", "RNAME", "MIDSV"} + (if ps[a].qscore.Some? then {"QSCORE"} else {})
                         + (SelectableKeys * keep)
  {
    var ps := Polished(rs, sqheaders, keep);
    var kept := KeepLength(MergedPadded(rs, sqheaders), sqheaders);
    PolishedPresent(rs, sqheaders, SelectableKeys);
    forall a | 0 <= a < |ps| ensures
      Fields(ps[a]) == {"QNAME", "RNAME", "MIDSV"} + (if ps[a].qscore.Some? then {"QSCORE"} else {}) + (SelectableKeys * keep)
    {
      PolishedAt(rs, sqheaders, keep, a);
      assert kept[a].removed !! SelectableKeys;
    }
  }

  /** With the QSCORE entries of every record given aligned to its MIDSV cells, so are
      those of every record polish emits. */
  lemma PolishedAligned(rs: seq<Rec>, sqheaders: map<string, int>, keep: set<string>)
    requires KnownReferences(rs, sqheaders) && ScoresPerRead(rs)
    requires forall k :: 0 <= k < |rs| ==> ScoresAligned(rs[k])
    ensures var ps := Polished(rs, sqheaders, keep);
      forall a :: 0 <= a < |ps| ==> ScoresAligned(ps[a])
  {
    var ps, ms, pads := Polished(rs, sqheaders, keep), Merged(rs), MergedPadded(rs, sqheaders);
    var kept := KeepLength(pads, sqheaders);
    MergedAligned(rs);
    MergedCarries(rs, sqheaders, {});
    forall a | 0 <= a < |ps| ensures ScoresAligned(ps[a]) {
      PolishedAt(rs, sqheaders, keep, a);
      var j :| 0 <= j < |pads| && pads[j] == kept[a];
      PaddedAllAt(ms, sqheaders, j);
      PaddedShape(ms[j], sqheaders[ms[j].rname]);
    }
  }

  /** The first two stages of polish: merge, then pad. */
  method MergeAndPad(alignments: seq<Alignment>, sqheaders: map<string, int>, ghost start: seq<Rec>)
    returns (padded: seq<Alignment>)
    requires Distinct(alignments) && Values(alignments) == start
    requires ScoresPerRead(start) && KnownReferences(start, sqheaders)
    modifies alignments
    ensures Distinct(padded) && Values(padded) == MergedPadded(start, sqheaders)
    ensures forall a :: 0 <= a < |padded| ==> padded[a] in alignments || fresh(padded[a])
  {
    MergedCarries(start, sqheaders, {});
    var merged := Merge(alignments);
    padded := Pad(merged, sqheaders, Merged(start));
  }

  /** polish: the records of polish's pipeline over the records given; they are records
      given or new ones, each once. */
  method Polish(alignments: seq<Alignment>, sqheaders: map<string, int>, keep: set<string>)
    returns (polished: seq<Alignment>)
    requires Distinct(alignments)
    requires ScoresPerRead(Values(alignments))
    requires KnownReferences(Values(alignments), sqheaders)
    requires Present(Values(alignments), Deleted(keep))
    modifies alignments
    ensures Distinct(polished)
    ensures Values(polished) == Polished(old(Values(alignments)), sqheaders, keep)
  {
    ghost var start := Values(alignments);
    PolishedPresent(start, sqheaders, Deleted(keep));
    var padded := MergeAndPad(alignments, sqheaders, start);
    var kept, picked := RemoveDifferentLength(padded, sqheaders);
    assert forall a :: 0 <= a < |kept| ==> kept[a] == padded[picked[a]];
    polished := Select(kept, keep, KeepLength(MergedPadded(start, sqheaders), sqheaders));
  }
}
