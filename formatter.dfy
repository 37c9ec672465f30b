/** The alignment pre-processing of src/midsv/formatter.py: the reference lengths are
    read from the @SQ header lines (section 1.3 of the SAM format specification, SAMv1),
    the mapped alignment lines that carry a long-form cs tag become records, soft clips
    are trimmed from SEQ and QUAL, the reads whose segments are resequenced are
    collapsed to their longest segment, and the records are sorted by [QNAME, POS].

    A SAM file is given as its lines, each a sequence of tab-separated fields. CIGAR
    strings are read as in section 1.4 of SAMv1: pieces of a count followed by one of
    the operations M, I, D, N, S, H, P, X and =. */
module Formatter {
  import opened Strings
  import opened Sorting
  import opened Records
  import opened Tokenizer

  // ---------------------------------------------------------------------------
  // extract_sqheaders
  // ---------------------------------------------------------------------------

  /** `"@SQ" in line`: one field of the line is exactly "@SQ". */
  predicate IsSqHeader(line: seq<string>)
  {
    "@SQ" in line
  }

  /** A field re.search("SN:|LN:", field) finds a match in. */
  predicate NamesSnOrLn(field: string)
  {
    Contains(field, "SN:") || Contains(field, "LN:")
  }

  /** The fields of a line that mention SN: or LN:, in their order. */
  function SnLnFields(line: seq<string>): (fs: seq<string>)
    ensures |fs| <= |line|
    decreases |line|
  {
    if line == [] then []
    else (if NamesSnOrLn(line[0]) then [line[0]] else []) + SnLnFields(line[1..])
  }

  /** The SN/LN fields are exactly the fields of the line that mention SN: or LN:. */
  lemma {:induction false} SnLnFieldsExact(line: seq<string>, f: string)
    ensures f in SnLnFields(line) <==> f in line && NamesSnOrLn(f)
    decreases |line|
  {
    if line != [] {
      SnLnFieldsExact(line[1..], f);
      var head := if NamesSnOrLn(line[0]) then [line[0]] else [];
      assert SnLnFields(line) == head + SnLnFields(line[1..]);
      assert line == [line[0]] + line[1..];
    }
  }

  /** An @SQ line extract_sqheaders reads without an error: it has two SN/LN fields, and
      the second is an integer once "LN:" is removed from it. */
  predicate ReadableSq(line: seq<string>)
  {
    var fs := SnLnFields(line);
    |fs| >= 2 && IsNumeral(RemoveAll(fs[1], "LN:"))
  }

  /** Every @SQ line of the file is readable. */
  predicate ReadableHeaders(sam: seq<seq<string>>)
  {
    forall k :: 0 <= k < |sam| && IsSqHeader(sam[k]) ==> ReadableSq(sam[k])
  }

  /** The reference name of an @SQ line: its first SN/LN field without "SN:". */
  function SqName(line: seq<string>): string
    requires ReadableSq(line)
  {
    RemoveAll(SnLnFields(line)[0], "SN:")
  }

  /** The reference length of an @SQ line: its second SN/LN field without "LN:". */
  function SqLength(line: seq<string>): nat
    requires ReadableSq(line)
  {
    ParseNat(RemoveAll(SnLnFields(line)[1], "LN:"))
  }

  /** The dictionary extract_sqheaders has built from the first n lines. */
  function SqHeadersUpTo(sam: seq<seq<string>>, n: nat): map<string, int>
    requires n <= |sam| && ReadableHeaders(sam)
  {
    if n == 0 then map[]
    else
      var m := SqHeadersUpTo(sam, n - 1);
      if IsSqHeader(sam[n - 1]) then m[SqName(sam[n - 1]) := SqLength(sam[n - 1])] else m
  }

  /** extract_sqheaders, on the lines of a file. */
  function SqHeaders(sam: seq<seq<string>>): map<string, int>
    requires ReadableHeaders(sam)
  {
    SqHeadersUpTo(sam, |sam|)
  }

  /** extract_sqheaders: the SN -> LN dictionary of the @SQ lines. */
  method ExtractSqheaders(sam: seq<seq<string>>) returns (headers: map<string, int>)
    requires ReadableHeaders(sam)
    ensures headers == SqHeaders(sam)
  {
    headers := map[];
    var i := 0;
    while i < |sam|
      invariant i <= |sam|
      invariant headers == SqHeadersUpTo(sam, i)
    {
      if IsSqHeader(sam[i]) {
        var snln := SnLnFields(sam[i]);
        var sn := RemoveAll(snln[0], "SN:");
        var ln := RemoveAll(snln[1], "LN:");
        headers := headers[sn := ParseNat(ln)];
      }
      i := i + 1;
    }
  }

  /** A name is a key of the dictionary exactly when some @SQ line names it. */
  lemma {:induction false} SqHeadersKeys(sam: seq<seq<string>>, n: nat, name: string)
    requires n <= |sam| && ReadableHeaders(sam)
    ensures name in SqHeadersUpTo(sam, n)
      <==> exists i :: 0 <= i < n && IsSqHeader(sam[i]) && SqName(sam[i]) == name
  {
    if n > 0 {
      SqHeadersKeys(sam, n - 1, name);
    }
  }

  /** The length recorded for a name is that of the last @SQ line naming it: a later
      line overrides an earlier one. */
  lemma {:induction false} SqHeadersLast(sam: seq<seq<string>>, n: nat, i: nat)
    requires n <= |sam| && ReadableHeaders(sam)
    requires i < n && IsSqHeader(sam[i])
    requires forall j :: i < j < n && IsSqHeader(sam[j]) ==> SqName(sam[j]) != SqName(sam[i])
    ensures SqName(sam[i]) in SqHeadersUpTo(sam, n)
    ensures SqHeadersUpTo(sam, n)[SqName(sam[i])] == SqLength(sam[i])
  {
    if i < n - 1 {
      SqHeadersLast(sam, n - 1, i);
    }
  }

  // ---------------------------------------------------------------------------
  // split_cigar
  // ---------------------------------------------------------------------------

  /** One of the operations re.split(r"([MIDNSHPX=])", cigar) cuts at. */
  predicate IsCigarOp(c: char)
  {
    c == 'M' || c == 'I' || c == 'D' || c == 'N' || c == 'S' || c == 'H' || c == 'P' || c == 'X' || c == '='
  }

  /** The pieces of the rest s of a CIGAR, with text the characters read since the last
      operation: every operation closes a piece of the text before it and itself, and
      the text after the last operation, which zip leaves without a partner, is dropped. */
  function CigarPieces(s: string, text: string): seq<string>
    decreases |s|
  {
    if s == [] then []
    else if IsCigarOp(s[0]) then [text + [s[0]]] + CigarPieces(s[1..], "")
    else CigarPieces(s[1..], text + [s[0]])
  }

  /** split_cigar. */
  function SplitCigar(cigar: string): seq<string>
  {
    CigarPieces(cigar, "")
  }

  /** A piece of a CIGAR: text that ends with its only operation. */
  predicate IsPiece(p: string)
  {
    |p| >= 1 && IsCigarOp(p[|p| - 1]) && forall k :: 0 <= k < |p| - 1 ==> !IsCigarOp(p[k])
  }

  /** Every piece ends with exactly one operation. */
  lemma {:induction false} CigarPiecesArePieces(s: string, text: string)
    requires forall k :: 0 <= k < |text| ==> !IsCigarOp(text[k])
    ensures forall k :: 0 <= k < |CigarPieces(s, text)| ==> IsPiece(CigarPieces(s, text)[k])
    decreases |s|
  {
    if s != [] {
      var rest := s[1..];
      if IsCigarOp(s[0]) {
        var p := text + [s[0]];
        CigarPiecesArePieces(rest, "");
        assert CigarPieces(s, text) == [p] + CigarPieces(rest, "");
        assert forall k :: 0 <= k < |p| - 1 ==> p[k] == text[k];
        assert IsPiece(p);
      } else {
        var t := text + [s[0]];
        assert forall k :: 0 <= k < |t| ==> !IsCigarOp(t[k]);
        CigarPiecesArePieces(rest, t);
      }
    }
  }

  /** The pieces concatenate back to the text and the CIGAR when it ends with an operation. */
  lemma {:induction false} CigarPiecesConcat(s: string, text: string)
    ensures (s == [] && text == []) || (s != [] && IsCigarOp(s[|s| - 1]))
      ==> Concat(CigarPieces(s, text)) == text + s
    decreases |s|
  {
    if s != [] {
      var rest := s[1..];
      if IsCigarOp(s[0]) {
        var p := text + [s[0]];
        CigarPiecesConcat(rest, "");
        assert CigarPieces(s, text) == [p] + CigarPieces(rest, "");
        assert Concat([p] + CigarPieces(rest, "")) == p + Concat(CigarPieces(rest, ""));
        assert text + s == p + rest;
      } else {
        var t := text + [s[0]];
        CigarPiecesConcat(rest, t);
        assert text + s == t + rest;
      }
    }
  }

  /** Every piece ends with exactly one operation, and the pieces concatenate back to
      the CIGAR when it ends with an operation. */
  lemma CigarPiecesShape(s: string, text: string)
    requires forall k :: 0 <= k < |text| ==> !IsCigarOp(text[k])
    ensures forall k :: 0 <= k < |CigarPieces(s, text)| ==> IsPiece(CigarPieces(s, text)[k])
    ensures (s == [] && text == []) || (s != [] && IsCigarOp(s[|s| - 1]))
      ==> Concat(CigarPieces(s, text)) == text + s
  {
    CigarPiecesArePieces(s, text);
    CigarPiecesConcat(s, text);
  }

  /** split_cigar cuts a CIGAR into pieces of text ending with one operation, which
      concatenate back to it when it ends with an operation. */
  lemma SplitCigarShape(cigar: string)
    ensures forall k :: 0 <= k < |SplitCigar(cigar)| ==> IsPiece(SplitCigar(cigar)[k])
    ensures cigar == [] || IsCigarOp(cigar[|cigar| - 1]) ==> Concat(SplitCigar(cigar)) == cigar
  {
    CigarPiecesShape(cigar, "");
  }

  /** A one-digit count and its operation make one piece. */
  lemma CigarPiecesPair(d: char, op: char, rest: string)
    requires !IsCigarOp(d) && IsCigarOp(op)
    ensures CigarPieces([d, op] + rest, "") == [[d, op]] + CigarPieces(rest, "")
  {
    assert ([d, op] + rest)[1..] == [op] + rest;
    assert ([op] + rest)[1..] == rest;
    assert "" + [d] + [op] == [d, op];
  }

  lemma SplitCigarExample()
    ensures SplitCigar("2M1I1D1M") == ["2M", "1I", "1D", "1M"]
  {
    CigarPiecesPair('2', 'M', "1I1D1M");
    CigarPiecesPair('1', 'I', "1D1M");
    CigarPiecesPair('1', 'D', "1M");
    CigarPiecesPair('1', 'M', "");
  }

  // ---------------------------------------------------------------------------
  // _return_end_of_current_read
  // ---------------------------------------------------------------------------

  /** A piece whose count int(piece[:-1]) reads: digits before the operation. */
  predicate Readable(p: string)
  {
    |p| >= 1 && IsNumeral(p[..|p| - 1])
  }

  /** The count of a readable piece. */
  function Length(p: string): nat
    requires Readable(p)
  {
    ParseNat(p[..|p| - 1])
  }

  /** A piece _return_end_of_current_read counts: it mentions M, D or N. */
  predicate ConsumesReference(p: string)
  {
    'M' in p || 'D' in p || 'N' in p
  }

  /** Every piece _return_end_of_current_read counts is readable. */
  predicate SpanReadable(ops: seq<string>)
  {
    forall k :: 0 <= k < |ops| && ConsumesReference(ops[k]) ==> Readable(ops[k])
  }

  /** The reference bases the pieces span: the sum of their M, D and N counts. */
  function Span(ops: seq<string>): nat
    requires SpanReadable(ops)
    decreases |ops|
  {
    if ops == [] then 0
    else (if ConsumesReference(ops[0]) then Length(ops[0]) else 0) + Span(ops[1..])
  }

  /** The last reference position an alignment covers. */
  function End(r: Rec): int
    requires SpanReadable(SplitCigar(r.cigar))
  {
    r.pos + Span(SplitCigar(r.cigar)) - 1
  }

  /** _return_end_of_current_read: POS plus the M, D and N counts, less one. */
  method ReturnEnd(r: Rec) returns (end: int)
    requires SpanReadable(SplitCigar(r.cigar))
    ensures end == End(r)
  {
    var ops := SplitCigar(r.cigar);
    var length := 0;
    var i := 0;
    while i < |ops|
      invariant i <= |ops|
      invariant length + Span(ops[i..]) == Span(ops)
    {
      assert ops[i..][1..] == ops[i + 1..];
      var cig := ops[i];
      if 'M' in cig || 'D' in cig || 'N' in cig {
        length := length + Length(cig);
      }
      i := i + 1;
    }
    assert ops[i..] == [];
    end := r.pos + length - 1;
  }

  lemma {:induction false} SpanConcat(a: seq<string>, b: seq<string>)
    requires SpanReadable(a) && SpanReadable(b)
    ensures SpanReadable(a + b)
    ensures Span(a + b) == Span(a) + Span(b)
    decreases |a|
  {
    if a != [] {
      assert (a + b)[1..] == a[1..] + b;
      SpanConcat(a[1..], b);
    } else {
      assert a + b == b;
    }
  }

  /** A CIGAR whose pieces hold no M, D or N spans no reference base: I, S, H and the
      other operations do not move the end. */
  lemma {:induction false} SpanIgnores(ops: seq<string>)
    requires forall k :: 0 <= k < |ops| ==> !ConsumesReference(ops[k])
    ensures SpanReadable(ops) && Span(ops) == 0
    decreases |ops|
  {
    if ops != [] {
      SpanIgnores(ops[1..]);
    }
  }

  // ---------------------------------------------------------------------------
  // _padding_n_to_sequence
  // ---------------------------------------------------------------------------

  /** A piece _padding_n_to_sequence reads the count of: it mentions M, I, D or N. */
  predicate ReadsCount(p: string)
  {
    ConsumesReference(p) || 'I' in p
  }

  /** Every piece _padding_n_to_sequence reads the count of is readable. */
  predicate PaddingReadable(ops: seq<string>)
  {
    forall k :: 0 <= k < |ops| && ReadsCount(ops[k]) ==> Readable(ops[k])
  }

  /** The bases the loop of _padding_n_to_sequence appends for the pieces, the read's
      SEQ read from start on: an M piece takes its count of bases, an I piece skips as
      many, a D or N piece stands for its count of 'N's, and any other piece adds nothing. */
  function Projected(ops: seq<string>, sequence: string, start: nat): string
    requires PaddingReadable(ops)
    decreases |ops|
  {
    if ops == [] then ""
    else
      var p := ops[0];
      if 'M' in p then
        PySlice(sequence, start, start + Length(p)) + Projected(ops[1..], sequence, start + Length(p))
      else if 'I' in p then Projected(ops[1..], sequence, start + Length(p))
      else if 'D' in p || 'N' in p then Repeat('N', Length(p)) + Projected(ops[1..], sequence, start)
      else Projected(ops[1..], sequence, start)
  }

  /** The read bases the pieces take from SEQ: their M and I counts. */
  function Consumed(ops: seq<string>): nat
    requires PaddingReadable(ops)
    decreases |ops|
  {
    if ops == [] then 0
    else (if 'M' in ops[0] || 'I' in ops[0] then Length(ops[0]) else 0) + Consumed(ops[1..])
  }

  /** The SEQ _padding_n_to_sequence writes: POS - 1 'N's for the reference before the
      alignment, then the projected bases. */
  function PaddedSeq(r: Rec): (s: string)
    requires PaddingReadable(SplitCigar(r.cigar))
    ensures |s| >= Max(0, r.pos - 1)
    ensures forall k :: 0 <= k < r.pos - 1 ==> s[k] == 'N'
  {
    Repeat('N', r.pos - 1) + Projected(SplitCigar(r.cigar), r.sequence, 0)
  }

  /** _padding_n_to_sequence: SEQ is rewritten as the read projected on the reference;
      nothing else changes. */
  method PadSequence(alignment: Alignment)
    requires PaddingReadable(SplitCigar(alignment.cigar))
    modifies alignment
    ensures alignment.Value() == old(alignment.Value()).(sequence := PaddedSeq(old(alignment.Value())))
  {
    var unified := Unify(SplitCigar(alignment.cigar), alignment.sequence, alignment.pos);
    alignment.sequence := Concat(unified);
  }

  /** The loop of _padding_n_to_sequence, before piece i: the pieces the loop appended,
      followed by the bases the remaining pieces give, make up the padded SEQ. */
  predicate UnifiedUpTo(ops: seq<string>, sequence: string, pos: int, unified: seq<string>, i: nat, startPosition: nat)
    requires PaddingReadable(ops) && i <= |ops|
  {
    Concat(unified) + Projected(ops[i..], sequence, startPosition) == Repeat('N', pos - 1) + Projected(ops, sequence, 0)
  }

  method UnifyStep(ops: seq<string>, sequence: string, pos: int, unified: seq<string>, i: nat, startPosition: nat)
    returns (more: seq<string>, nextPosition: nat)
    requires PaddingReadable(ops) && i < |ops| && UnifiedUpTo(ops, sequence, pos, unified, i, startPosition)
    ensures UnifiedUpTo(ops, sequence, pos, more, i + 1, nextPosition)
  {
    assert ops[i..][1..] == ops[i + 1..];
    var operation := ops[i];
    more, nextPosition := unified, startPosition;
    if 'M' in operation {
      var length := Length(operation);
      var endPosition := startPosition + length;
      ConcatSnoc(unified, PySlice(sequence, startPosition, endPosition));
      more := unified + [PySlice(sequence, startPosition, endPosition)];
      nextPosition := endPosition;
    } else if 'I' in operation {
      var length := Length(operation);
      nextPosition := startPosition + length;
    } else if 'D' in operation || 'N' in operation {
      var length := Length(operation);
      ConcatSnoc(unified, Repeat('N', length));
      more := unified + [Repeat('N', length)];
    }
  }

  /** The pieces _padding_n_to_sequence joins into the padded SEQ. */
  method Unify(ops: seq<string>, sequence: string, pos: int) returns (unified: seq<string>)
    requires PaddingReadable(ops)
    ensures Concat(unified) == Repeat('N', pos - 1) + Projected(ops, sequence, 0)
  {
    unified := [Repeat('N', pos - 1)];
    var startPosition := 0;
    assert Concat(unified) == Repeat('N', pos - 1);
    for i := 0 to |ops|
      invariant UnifiedUpTo(ops, sequence, pos, unified, i, startPosition)
    {
      unified, startPosition := UnifyStep(ops, sequence, pos, unified, i, startPosition);
    }
    assert ops[|ops|..] == [];
  }

  /** The only operation of a readable piece is its last character. */
  lemma ReadableOp(p: string, c: char)
    requires Readable(p) && !IsDigit(c) && c in p
    ensures p[|p| - 1] == c
  {
    var k :| 0 <= k < |p| && p[k] == c;
    assert forall j :: 0 <= j < |p| - 1 ==> p[..|p| - 1][j] == p[j];
  }

  /** After start, when SEQ holds every base the pieces take, the projected bases are
      one per reference base the pieces span. */
  lemma {:induction false} ProjectedLength(ops: seq<string>, sequence: string, start: nat)
    requires PaddingReadable(ops)
    requires start + Consumed(ops) <= |sequence|
    ensures SpanReadable(ops)
    ensures |Projected(ops, sequence, start)| == Span(ops)
    decreases |ops|
  {
    if ops != [] {
      var p := ops[0];
      assert forall k :: 0 <= k < |ops[1..]| ==> ops[1..][k] == ops[k + 1];
      if 'M' in p {
        ProjectedMatch(ops, sequence, start);
        ProjectedLength(ops[1..], sequence, start + Length(p));
      } else if 'I' in p {
        ProjectedInsertion(ops, sequence, start);
        ProjectedLength(ops[1..], sequence, start + Length(p));
      } else {
        ProjectedLength(ops[1..], sequence, start);
      }
    }
  }

  /** An M piece whose bases SEQ holds projects its count of them. */
  lemma ProjectedMatch(ops: seq<string>, sequence: string, start: nat)
    requires PaddingReadable(ops) && ops != [] && 'M' in ops[0]
    requires start + Consumed(ops) <= |sequence|
    ensures Readable(ops[0]) && ConsumesReference(ops[0])
    ensures start + Length(ops[0]) + Consumed(ops[1..]) <= |sequence|
    ensures |Projected(ops, sequence, start)|
      == Length(ops[0]) + |Projected(ops[1..], sequence, start + Length(ops[0]))|
  {
    var p := ops[0];
    ReadableOp(p, 'M');
    assert PySlice(sequence, start, start + Length(p)) == sequence[start..start + Length(p)];
  }

  /** An I piece projects nothing and spans no reference base. */
  lemma ProjectedInsertion(ops: seq<string>, sequence: string, start: nat)
    requires PaddingReadable(ops) && ops != [] && 'I' in ops[0] && 'M' !in ops[0]
    requires start + Consumed(ops) <= |sequence|
    ensures Readable(ops[0]) && !ConsumesReference(ops[0])
    ensures start + Length(ops[0]) + Consumed(ops[1..]) <= |sequence|
    ensures Projected(ops, sequence, start) == Projected(ops[1..], sequence, start + Length(ops[0]))
  {
    var p := ops[0];
    ReadableOp(p, 'I');
    if 'D' in p { ReadableOp(p, 'D'); }
    if 'N' in p { ReadableOp(p, 'N'); }
  }

  /** For a read that starts on the reference and whose SEQ holds every base its CIGAR
      takes, the padded SEQ ends at the read's last reference position: it has exactly
      End(r) characters, (POS - 1) + M + D + N. */
  lemma PaddedReachesEnd(r: Rec)
    requires PaddingReadable(SplitCigar(r.cigar))
    requires Consumed(SplitCigar(r.cigar)) <= |r.sequence|
    requires r.pos >= 1
    ensures SpanReadable(SplitCigar(r.cigar))
    ensures |PaddedSeq(r)| == End(r)
  {
    ProjectedLength(SplitCigar(r.cigar), r.sequence, 0);
  }

  // ---------------------------------------------------------------------------
  // is_resequence
  // ---------------------------------------------------------------------------

  /** Both segments' CIGARs can be read by _return_end_of_current_read. */
  predicate SpansReadable(prev: Rec, curr: Rec)
  {
    SpanReadable(SplitCigar(prev.cigar)) && SpanReadable(SplitCigar(curr.cigar))
  }

  /** The current segment lies within the reference interval of the previous one. */
  predicate Contained(prev: Rec, curr: Rec)
    requires SpansReadable(prev, curr)
  {
    prev.pos <= curr.pos && End(prev) >= End(curr)
  }

  /** The first and last reference positions both segments cover. */
  function OverlapStart(prev: Rec, curr: Rec): int
  {
    Max(prev.pos, curr.pos)
  }

  function OverlapEnd(prev: Rec, curr: Rec): int
    requires SpansReadable(prev, curr)
  {
    Min(End(prev), End(curr))
  }

  /** zip(a, b) holds a pair of different characters. The guards prev_base != "=N" and
      curr_base != "=N" of the loop compare one character with a two-character string,
      so they always hold. */
  function DiffersAsWritten(a: string, b: string): bool
    decreases |a|
  {
    a != [] && b != [] && (a[0] != b[0] || DiffersAsWritten(a[1..], b[1..]))
  }

  /** is_resequence as written: the SEQ of each segment, already padded by
      _padding_n_to_sequence, is sliced from the overlap's start less its own POS. */
  function IsResequenceAsWritten(prev: Rec, curr: Rec): bool
    requires SpansReadable(prev, curr)
  {
    var startOverlap, endOverlap := OverlapStart(prev, curr), OverlapEnd(prev, curr);
    Contained(prev, curr)
    || DiffersAsWritten(PySlice(prev.sequence, startOverlap - prev.pos, endOverlap - prev.pos),
                        PySlice(curr.sequence, startOverlap - curr.pos, endOverlap - curr.pos))
  }

  /** zip(a, b) holds a pair of different bases, neither of them the unknown base 'N'. */
  function Disagree(a: string, b: string): bool
    decreases |a|
  {
    a != [] && b != []
    && ((a[0] != 'N' && b[0] != 'N' && a[0] != b[0]) || Disagree(a[1..], b[1..]))
  }

  /** is_resequence as intended: a padded SEQ holds the base of reference position p at
      index p - 1, so both are sliced at the overlap's reference positions, and the
      padding 'N's are not compared. */
  function IsResequence(prev: Rec, curr: Rec): bool
    requires SpansReadable(prev, curr)
  {
    var lo, hi := OverlapLo(prev, curr), OverlapHi(prev, curr);
    Contained(prev, curr) || Disagree(PySlice(prev.sequence, lo, hi), PySlice(curr.sequence, lo, hi))
  }

  /** Two padded segments hold different known bases at reference position p. */
  predicate BasesDisagree(prev: Rec, curr: Rec, p: int)
  {
    1 <= p && p <= |prev.sequence| && p <= |curr.sequence|
    && prev.sequence[p - 1] != 'N' && curr.sequence[p - 1] != 'N'
    && prev.sequence[p - 1] != curr.sequence[p - 1]
  }

  lemma {:induction false} DisagreeAt(a: string, b: string)
    ensures Disagree(a, b) <==>
      exists k :: 0 <= k < |a| && k < |b| && a[k] != 'N' && b[k] != 'N' && a[k] != b[k]
    decreases |a|
  {
    if a != [] && b != [] {
      DisagreeAt(a[1..], b[1..]);
      if Disagree(a[1..], b[1..]) {
        var k :| 0 <= k < |a[1..]| && k < |b[1..]| && a[1..][k] != 'N' && b[1..][k] != 'N' && a[1..][k] != b[1..][k];
        assert a[k + 1] == a[1..][k] && b[k + 1] == b[1..][k];
      }
      if exists k :: 0 <= k < |a| && k < |b| && a[k] != 'N' && b[k] != 'N' && a[k] != b[k] {
        var k :| 0 <= k < |a| && k < |b| && a[k] != 'N' && b[k] != 'N' && a[k] != b[k];
        if k > 0 {
          assert a[1..][k - 1] == a[k] && b[1..][k - 1] == b[k];
        }
      }
    }
  }

  /** A slice within bounds holds the characters from its start on. */
  lemma PySliceAt(s: string, lo: nat, hi: nat, k: nat)
    requires lo + k < hi && lo + k < |s|
    ensures k < |PySlice(s, lo, hi)| && PySlice(s, lo, hi)[k] == s[lo + k]
  {
  }

  /** A position of a slice lies within its bounds. */
  lemma PySliceIn(s: string, lo: nat, hi: nat, k: nat)
    requires k < |PySlice(s, lo, hi)|
    ensures lo + k < hi && lo + k < |s| && PySlice(s, lo, hi)[k] == s[lo + k]
  {
  }

  /** The overlap as the intended is_resequence slices it, in padded SEQ indexes. */
  function OverlapLo(prev: Rec, curr: Rec): nat
  {
    Max(OverlapStart(prev, curr) - 1, 0)
  }

  function OverlapHi(prev: Rec, curr: Rec): nat
    requires SpansReadable(prev, curr)
  {
    Max(OverlapEnd(prev, curr), 0)
  }

  /** A disagreement in the slices is one at a reference position of the overlap. */
  lemma DisagreementPlace(prev: Rec, curr: Rec)
    requires SpansReadable(prev, curr)
    requires Disagree(PySlice(prev.sequence, OverlapLo(prev, curr), OverlapHi(prev, curr)),
                      PySlice(curr.sequence, OverlapLo(prev, curr), OverlapHi(prev, curr)))
    ensures exists p :: OverlapStart(prev, curr) <= p <= OverlapEnd(prev, curr) && BasesDisagree(prev, curr, p)
  {
    var lo, hi := OverlapLo(prev, curr), OverlapHi(prev, curr);
    var a, b := PySlice(prev.sequence, lo, hi), PySlice(curr.sequence, lo, hi);
    DisagreeAt(a, b);
    var k :| 0 <= k < |a| && k < |b| && a[k] != 'N' && b[k] != 'N' && a[k] != b[k];
    PySliceIn(prev.sequence, lo, hi, k);
    PySliceIn(curr.sequence, lo, hi, k);
    assert BasesDisagree(prev, curr, lo + k + 1);
  }

  /** A disagreement at a reference position of the overlap shows in the slices. */
  lemma DisagreementShows(prev: Rec, curr: Rec, p: int)
    requires SpansReadable(prev, curr)
    requires OverlapStart(prev, curr) <= p <= OverlapEnd(prev, curr) && BasesDisagree(prev, curr, p)
    ensures Disagree(PySlice(prev.sequence, OverlapLo(prev, curr), OverlapHi(prev, curr)),
                     PySlice(curr.sequence, OverlapLo(prev, curr), OverlapHi(prev, curr)))
  {
    var lo, hi := OverlapLo(prev, curr), OverlapHi(prev, curr);
    var a, b := PySlice(prev.sequence, lo, hi), PySlice(curr.sequence, lo, hi);
    var k := p - 1 - lo;
    PySliceAt(prev.sequence, lo, hi, k);
    PySliceAt(curr.sequence, lo, hi, k);
    DisagreeAt(a, b);
  }

  /** The intended is_resequence, stated on reference positions: the current segment is
      a resequence of the previous one exactly when it lies within it, or when at some
      reference position both cover their padded SEQs hold different known bases. */
  lemma ResequenceMeaning(prev: Rec, curr: Rec)
    requires SpansReadable(prev, curr)
    ensures IsResequence(prev, curr) <==> (Contained(prev, curr)
      || exists p :: OverlapStart(prev, curr) <= p <= OverlapEnd(prev, curr) && BasesDisagree(prev, curr, p))
  {
    var lo, hi := OverlapLo(prev, curr), OverlapHi(prev, curr);
    if Disagree(PySlice(prev.sequence, lo, hi), PySlice(curr.sequence, lo, hi)) {
      DisagreementPlace(prev, curr);
    }
    if exists p :: OverlapStart(prev, curr) <= p <= OverlapEnd(prev, curr) && BasesDisagree(prev, curr, p) {
      var p :| OverlapStart(prev, curr) <= p <= OverlapEnd(prev, curr) && BasesDisagree(prev, curr, p);
      DisagreementShows(prev, curr, p);
    }
  }

  /** A CIGAR of one match piece of four bases. */
  lemma FourMatches()
    ensures SplitCigar("4M") == ["4M"]
    ensures Readable("4M") && Length("4M") == 4 && ConsumesReference("4M") && 'M' in "4M"
  {
    CigarPiecesPair('4', 'M', "");
    assert "4M"[..1] == "4";
    assert "4"[..0] == "";
    assert ParseNat("4") == 4;
    assert "4M"[1] == 'M';
  }

  /** A segment with CIGAR 4M at POS pos: it ends three positions later, and its padded
      SEQ is pos - 1 'N's before its four bases. */
  lemma FourMatchSegment(r: Rec)
    requires r.cigar == "4M" && |r.sequence| == 4 && r.pos >= 1
    ensures PaddingReadable(SplitCigar(r.cigar)) && SpanReadable(SplitCigar(r.cigar))
    ensures End(r) == r.pos + 3
    ensures PaddedSeq(r) == Repeat('N', r.pos - 1) + r.sequence
  {
    FourMatches();
    var ops := SplitCigar(r.cigar);
    assert ops[1..] == [];
    assert Span(ops) == 4;
    assert PySlice(r.sequence, 0, 4) == r.sequence;
    assert Projected(ops, r.sequence, 0) == r.sequence + "";
  }

  /** Two segments of a read, the second starting two positions later, that agree on
      the two reference positions they share; the first record of each pair is the
      alignment as read, the second after _padding_n_to_sequence. */
  function AgreeingFirst(): Rec
  {
    Rec("read", 0, "chr", 1, "4M", "ACGT", "IIII", "cs:Z:=ACGT", [], None, {})
  }

  function AgreeingSecond(): Rec
  {
    Rec("read", 0, "chr", 3, "4M", "GTAA", "IIII", "cs:Z:=GTAA", [], None, {})
  }

  /** The padded segments: "ACGT" from position 1 and "NNGTAA", both with G and T at
      reference positions 3 and 4. */
  lemma AgreeingPadded()
    ensures PaddingReadable(SplitCigar(AgreeingFirst().cigar))
    ensures PaddingReadable(SplitCigar(AgreeingSecond().cigar))
    ensures PaddedSeq(AgreeingFirst()) == "ACGT"
    ensures PaddedSeq(AgreeingSecond()) == "NNGTAA"
    ensures End(AgreeingFirst()) == 4 && End(AgreeingSecond()) == 6
  {
    FourMatchSegment(AgreeingFirst());
    FourMatchSegment(AgreeingSecond());
    assert Repeat('N', 0) == "";
    assert Repeat('N', 2) == "NN";
  }

  /** The padded segments, and the reference interval they share: positions 3 and 4. */
  function PaddedFirst(): Rec
  {
    AgreeingFirst().(sequence := "ACGT")
  }

  function PaddedSecond(): Rec
  {
    AgreeingSecond().(sequence := "NNGTAA")
  }

  lemma PaddedOverlap()
    ensures SpansReadable(PaddedFirst(), PaddedSecond())
    ensures End(PaddedFirst()) == 4 && End(PaddedSecond()) == 6
    ensures !Contained(PaddedFirst(), PaddedSecond())
    ensures OverlapStart(PaddedFirst(), PaddedSecond()) == 3 && OverlapEnd(PaddedFirst(), PaddedSecond()) == 4
  {
    FourMatchSegment(AgreeingFirst());
    FourMatchSegment(AgreeingSecond());
    assert End(PaddedFirst()) == End(AgreeingFirst());
    assert End(PaddedSecond()) == End(AgreeingSecond());
  }

  /** As written, is_resequence compares base G of the first segment, at reference
      position 3, with the padding 'N' at index 0 of the second. */
  lemma AsWrittenDiffers()
    ensures SpansReadable(PaddedFirst(), PaddedSecond())
    ensures IsResequenceAsWritten(PaddedFirst(), PaddedSecond())
  {
    PaddedOverlap();
    assert PySlice("ACGT", 2, 3) == "G";
    assert PySlice("NNGTAA", 0, 1) == "N";
    assert DiffersAsWritten("G", "N");
  }

  /** No string disagrees with itself. */
  lemma {:induction false} DisagreeSelf(a: string)
    ensures !Disagree(a, a)
    decreases |a|
  {
    if a != [] {
      DisagreeSelf(a[1..]);
    }
  }

  lemma IntendedSlices()
    ensures PySlice(PaddedFirst().sequence, 2, 4) == "GT" == PySlice(PaddedSecond().sequence, 2, 4)
  {
    assert PySlice("ACGT", 2, 4) == "ACGT"[2..4] == "GT";
    assert PySlice("NNGTAA", 2, 4) == "NNGTAA"[2..4] == "GT";
  }

  /** As intended, both slices are "GT". */
  lemma IntendedAgrees()
    ensures SpansReadable(PaddedFirst(), PaddedSecond())
    ensures !IsResequence(PaddedFirst(), PaddedSecond())
  {
    PaddedOverlap();
    assert OverlapLo(PaddedFirst(), PaddedSecond()) == 2;
    assert OverlapHi(PaddedFirst(), PaddedSecond()) == 4;
    IntendedSlices();
    DisagreeSelf("GT");
  }

  /** Two segments of a read that agree on their overlap, as is_resequence sees them
      once padded: as written it reports a resequence; as intended it does not. */
  lemma ResequenceAsWrittenCounterexample()
    ensures AgreeingPaddedAre()
    ensures SpansReadable(PaddedFirst(), PaddedSecond())
    ensures PaddedFirst().sequence[2..4] == PaddedSecond().sequence[2..4]
    ensures IsResequenceAsWritten(PaddedFirst(), PaddedSecond())
    ensures !IsResequence(PaddedFirst(), PaddedSecond())
  {
    AgreeingPadded();
    AsWrittenDiffers();
    IntendedAgrees();
    assert "ACGT"[2..4] == "GT" && "NNGTAA"[2..4] == "GT";
  }

  /** The padded segments are what _padding_n_to_sequence makes of the segments. */
  predicate AgreeingPaddedAre()
  {
    && PaddingReadable(SplitCigar(AgreeingFirst().cigar))
    && PaddingReadable(SplitCigar(AgreeingSecond().cigar))
    && PaddedFirst() == AgreeingFirst().(sequence := PaddedSeq(AgreeingFirst()))
    && PaddedSecond() == AgreeingSecond().(sequence := PaddedSeq(AgreeingSecond()))
  }

  // ---------------------------------------------------------------------------
  // remove_softclips
  // ---------------------------------------------------------------------------

  /** The number of bases a soft-clip piece at an end of the read clips: its count when
      it mentions S, none otherwise. */
  function Clip(p: string): nat
    requires 'S' in p ==> Readable(p)
  {
    if 'S' in p then Length(p) else 0
  }

  /** A record remove_softclips trims without an error: when its CIGAR has an S, the
      first and the last piece are readable if they mention S. */
  predicate ClipsReadable(r: Rec)
  {
    'S' in r.cigar ==>
      var ops := SplitCigar(r.cigar);
      |ops| >= 1 && ('S' in ops[0] ==> Readable(ops[0])) && ('S' in ops[|ops| - 1] ==> Readable(ops[|ops| - 1]))
  }

  /** SEQ or QUAL once the soft clips of a CIGAR split into pieces are removed: a
      leading clip of n bases removes the first n characters, then a trailing one of m
      bases the last m (Python's s[:-m]). */
  function Trimmed(s: string, left: string, right: string): string
    requires 'S' in left ==> Readable(left)
    requires 'S' in right ==> Readable(right)
  {
    var l := if 'S' in left then PySlice(s, Length(left), |s|) else s;
    if 'S' in right then PySlice(l, 0, -(Length(right) as int)) else l
  }

  /** The record remove_softclips leaves: SEQ and QUAL trimmed of the soft clips at the
      ends of the CIGAR, when it has any; nothing else changes. */
  function Unclipped(r: Rec): (u: Rec)
    requires ClipsReadable(r)
    ensures u.(sequence := r.sequence, qual := r.qual) == r
  {
    if 'S' !in r.cigar then r
    else
      var ops := SplitCigar(r.cigar);
      r.(sequence := Trimmed(r.sequence, ops[0], ops[|ops| - 1]),
         qual := Trimmed(r.qual, ops[0], ops[|ops| - 1]))
  }

  /** A record whose CIGAR has no S keeps its SEQ and QUAL. */
  lemma UnclippedPlain(r: Rec)
    requires 'S' !in r.cigar
    ensures ClipsReadable(r) && Unclipped(r) == r
  {
  }

  /** Trimming keeps the characters between the two clips: s[n : len - m]. */
  lemma TrimmedBases(s: string, left: string, right: string)
    requires 'S' in left ==> Readable(left)
    requires 'S' in right ==> Readable(right) && Length(right) >= 1
    requires Clip(left) + Clip(right) <= |s|
    ensures Trimmed(s, left, right) == s[Clip(left)..|s| - Clip(right)]
  {
  }

  /** A read with a soft clip of n bases at its start and one of m bases at its end, in
      two different pieces, keeps the bases between them: SEQ[n : len - m], and so does
      QUAL. A clip piece of 0 bases at the end would leave nothing, as s[:-0] is empty. */
  lemma UnclippedBases(r: Rec)
    requires 'S' in r.cigar && ClipsReadable(r)
    requires |SplitCigar(r.cigar)| >= 2
    requires var ops := SplitCigar(r.cigar);
      var n, m := Clip(ops[0]), Clip(ops[|ops| - 1]);
      && ('S' in ops[|ops| - 1] ==> m >= 1)
      && n + m <= |r.sequence| && n + m <= |r.qual|
    ensures var ops := SplitCigar(r.cigar);
      var n, m := Clip(ops[0]), Clip(ops[|ops| - 1]);
      && Unclipped(r).sequence == r.sequence[n..|r.sequence| - m]
      && Unclipped(r).qual == r.qual[n..|r.qual| - m]
  {
    var ops := SplitCigar(r.cigar);
    TrimmedBases(r.sequence, ops[0], ops[|ops| - 1]);
    TrimmedBases(r.qual, ops[0], ops[|ops| - 1]);
  }

  /** remove_softclips on the contents of a list. */
  function UnclippedAll(rs: seq<Rec>): (us: seq<Rec>)
    requires forall k :: 0 <= k < |rs| ==> ClipsReadable(rs[k])
    ensures |us| == |rs|
  {
    if rs == [] then [] else [Unclipped(rs[0])] + UnclippedAll(rs[1..])
  }

  lemma {:induction false} UnclippedAllAt(rs: seq<Rec>, k: nat)
    requires forall k :: 0 <= k < |rs| ==> ClipsReadable(rs[k])
    requires k < |rs|
    ensures UnclippedAll(rs)[k] == Unclipped(rs[k])
  {
    if k > 0 {
      UnclippedAllAt(rs[1..], k - 1);
    }
  }

  /** The body of the loop of remove_softclips, for one record. */
  method RemoveSoftclip(alignment: Alignment)
    requires ClipsReadable(alignment.Value())
    modifies alignment
    ensures alignment.Value() == Unclipped(old(alignment.Value()))
  {
    var cigar := alignment.cigar;
    if 'S' !in cigar {
      return;
    }
    var cigarSplit := SplitCigar(cigar);
    var left, right := cigarSplit[0], cigarSplit[|cigarSplit| - 1];
    var sequence, qual := alignment.sequence, alignment.qual;
    if 'S' in left {
      var n := Length(left);
      sequence := PySlice(sequence, n, |sequence|);
      qual := PySlice(qual, n, |qual|);
    }
    if 'S' in right {
      var m: int := Length(right);
      sequence := PySlice(sequence, 0, -m);
      qual := PySlice(qual, 0, -m);
    }
    alignment.sequence, alignment.qual := sequence, qual;
  }

  method RemoveSoftclipAt(records: seq<Alignment>, n: nat, ghost start: seq<Rec>)
    requires Distinct(records) && n < |records| == |start|
    requires forall k :: 0 <= k < |start| ==> ClipsReadable(start[k])
    requires UpdatedUpTo(records, start, UnclippedAll(start), n)
    modifies records[n]
    ensures UpdatedUpTo(records, start, UnclippedAll(start), n + 1)
  {
    UnclippedAllAt(start, n);
    RemoveSoftclip(records[n]);
  }

  /** remove_softclips: every record trimmed of its soft clips; the list returned holds
      the records given, in their order. */
  method RemoveSoftclips(alignments: seq<Alignment>, ghost start: seq<Rec>)
    returns (trimmed: seq<Alignment>)
    requires Distinct(alignments) && Values(alignments) == start
    requires forall k :: 0 <= k < |start| ==> ClipsReadable(start[k])
    modifies alignments
    ensures trimmed == alignments
    ensures Values(trimmed) == UnclippedAll(start)
  {
    var n := 0;
    while n < |alignments|
      invariant n <= |alignments|
      invariant UpdatedUpTo(alignments, start, UnclippedAll(start), n)
    {
      RemoveSoftclipAt(alignments, n, start);
      n := n + 1;
    }
    trimmed := alignments;
    ValuesAre(trimmed, UnclippedAll(start));
  }

  // ---------------------------------------------------------------------------
  // remove_resequence
  // ---------------------------------------------------------------------------

  /** is_resequence on the records: the corrected comparison, with the loop over the
      pairs of bases of the two overlaps. */
  method ResequenceCheck(prevRead: Alignment, currRead: Alignment) returns (b: bool)
    requires SpansReadable(prevRead.Value(), currRead.Value())
    ensures b == IsResequence(prevRead.Value(), currRead.Value())
  {
    var prev, curr := prevRead.Value(), currRead.Value();
    var endPrev := ReturnEnd(prev);
    var endCurr := ReturnEnd(curr);
    var startOverlap, endOverlap := Max(prev.pos, curr.pos), Min(endPrev, endCurr);
    if prev.pos <= curr.pos && endPrev >= endCurr {
      return true;
    }
    var lo, hi := Max(startOverlap - 1, 0), Max(endOverlap, 0);
    var overlapPrev, overlapCurr := PySlice(prev.sequence, lo, hi), PySlice(curr.sequence, lo, hi);
    var k := 0;
    while k < |overlapPrev| && k < |overlapCurr|
      invariant k <= |overlapPrev| && k <= |overlapCurr|
      invariant Disagree(overlapPrev, overlapCurr) == Disagree(overlapPrev[k..], overlapCurr[k..])
    {
      assert overlapPrev[k..][1..] == overlapPrev[k + 1..] && overlapCurr[k..][1..] == overlapCurr[k + 1..];
      if overlapPrev[k] != 'N' && overlapCurr[k] != 'N' && overlapPrev[k] != overlapCurr[k] {
        return true;
      }
      k := k + 1;
    }
    return false;
  }

  /** A record remove_resequence reads without an error: every piece of its CIGAR that
      _padding_n_to_sequence and _return_end_of_current_read count is readable. */
  predicate ResequenceReadable(r: Rec)
  {
    PaddingReadable(SplitCigar(r.cigar))
  }

  predicate AllResequenceReadable(rs: seq<Rec>)
  {
    forall k :: 0 <= k < |rs| ==> ResequenceReadable(rs[k])
  }

  /** A record after _padding_n_to_sequence. */
  function PaddedRec(r: Rec): (p: Rec)
    requires ResequenceReadable(r)
    ensures p.(sequence := r.sequence) == r && ResequenceReadable(p)
  {
    r.(sequence := PaddedSeq(r))
  }

  /** The records of a group, each padded. */
  function PaddedRecs(g: seq<Rec>): (ps: seq<Rec>)
    requires AllResequenceReadable(g)
    ensures |ps| == |g| && AllResequenceReadable(ps)
  {
    if g == [] then [] else [PaddedRec(g[0])] + PaddedRecs(g[1..])
  }

  lemma {:induction false} PaddedRecsAt(g: seq<Rec>, k: nat)
    requires AllResequenceReadable(g) && k < |g|
    ensures PaddedRecs(g)[k] == PaddedRec(g[k])
  {
    if k > 0 {
      PaddedRecsAt(g[1..], k - 1);
    }
  }

  /** The sort key of the sort of alignments by QNAME. */
  function NameKeys(rs: seq<Rec>): (keys: seq<Key>)
    ensures |keys| == |rs|
  {
    seq(|rs|, k requires 0 <= k < |rs| => (rs[k].qname, 0))
  }

  /** The sort key of the sort of a group by POS. */
  function PosKeys(rs: seq<Rec>): (keys: seq<Key>)
    ensures |keys| == |rs|
  {
    seq(|rs|, k requires 0 <= k < |rs| => ("", rs[k].pos))
  }

  /** max(group, key=len(SEQ)) among the first n records: the first of the longest. */
  function LongestUpTo(g: seq<Rec>, n: nat): (b: nat)
    requires 1 <= n <= |g|
    ensures b < n
    ensures forall k :: 0 <= k < n ==> |g[k].sequence| <= |g[b].sequence|
    ensures forall k :: 0 <= k < b ==> |g[k].sequence| < |g[b].sequence|
  {
    if n == 1 then 0
    else
      var b := LongestUpTo(g, n - 1);
      if |g[n - 1].sequence| > |g[b].sequence| then n - 1 else b
  }

  /** The loop of remove_resequence over a group sorted by POS, from record i on, with
      the records retained so far: a record that is a resequence of the last one retained
      leaves only the longest record of the group and ends the loop. */
  function RetainFrom(g: seq<Rec>, i: nat, acc: seq<Rec>): seq<Rec>
    requires 1 <= i <= |g| && acc != []
    requires AllResequenceReadable(g) && AllResequenceReadable(acc)
    decreases |g| - i
  {
    if i == |g| then acc
    else if IsResequence(acc[|acc| - 1], g[i]) then [g[LongestUpTo(g, |g|)]]
    else RetainFrom(g, i + 1, acc + [g[i]])
  }

  function Retained(g: seq<Rec>): seq<Rec>
    requires AllResequenceReadable(g)
  {
    if g == [] then [] else RetainFrom(g, 1, [g[0]])
  }

  /** No record of the sorted group is a resequence of the one before it. */
  predicate NoResequence(g: seq<Rec>)
    requires AllResequenceReadable(g)
  {
    forall j :: 0 < j < |g| ==> !IsResequence(g[j - 1], g[j])
  }

  lemma {:induction false} RetainFromForm(g: seq<Rec>, i: nat)
    requires 1 <= i <= |g| && AllResequenceReadable(g)
    requires forall j :: 0 < j < i ==> !IsResequence(g[j - 1], g[j])
    ensures RetainFrom(g, i, g[..i]) == if NoResequence(g) then g else [g[LongestUpTo(g, |g|)]]
    decreases |g| - i
  {
    if i == |g| {
      assert g[..i] == g;
    } else {
      RetainFromStep(g, i);
      if IsResequence(g[i - 1], g[i]) {
        assert !NoResequence(g);
      } else {
        RetainFromForm(g, i + 1);
      }
    }
  }

  /** One step of the loop of remove_resequence over a sorted group: a resequence ends
      it with the longest record, any other record is retained. */
  lemma RetainFromStep(g: seq<Rec>, i: nat)
    requires 1 <= i < |g| && AllResequenceReadable(g)
    ensures RetainFrom(g, i, g[..i])
      == if IsResequence(g[i - 1], g[i]) then [g[LongestUpTo(g, |g|)]] else RetainFrom(g, i + 1, g[..i + 1])
  {
    ReadablePrefix(g, i);
    ReadablePrefix(g, i + 1);
    assert g[..i][i - 1] == g[i - 1];
    assert g[..i] + [g[i]] == g[..i + 1];
  }

  /** The records before i of a readable list are readable. */
  lemma ReadablePrefix(g: seq<Rec>, i: nat)
    requires i <= |g| && AllResequenceReadable(g)
    ensures AllResequenceReadable(g[..i])
  {
    forall k | 0 <= k < i ensures ResequenceReadable(g[..i][k]) {
      assert g[..i][k] == g[k];
    }
  }

  /** The records a group keeps: all of them when none is a resequence of the one before
      it in POS order, otherwise only the first of the longest. */
  lemma RetainedForm(g: seq<Rec>)
    requires AllResequenceReadable(g) && g != []
    ensures Retained(g) == if NoResequence(g) then g else [g[LongestUpTo(g, |g|)]]
  {
    assert [g[0]] == g[..1];
    RetainFromForm(g, 1);
  }

  /** A group padded, sorted by POS, and reduced to the records it retains. */
  function GroupResult(g: seq<Rec>): seq<Rec>
    requires AllResequenceReadable(g)
  {
    var pg := PaddedRecs(g);
    ArrangedReadable(pg, PosKeys(pg));
    Retained(Arranged(pg, PosKeys(pg)))
  }

  /** The records remove_resequence emits for the groups of s starting at i on. */
  function ResequenceFrom(s: seq<Rec>, i: nat): seq<Rec>
    requires AllResequenceReadable(s)
    decreases |s| - i
  {
    if i >= |s| then []
    else
      var e := RunEnd(s, i, i + 1);
      GroupResult(s[i..e]) + ResequenceFrom(s, e)
  }

  /** Sorting by QNAME keeps the records readable. */
  lemma ArrangedReadable(rs: seq<Rec>, keys: seq<Key>)
    requires |keys| == |rs| && AllResequenceReadable(rs)
    ensures AllResequenceReadable(Arranged(rs, keys))
  {
    ArrangedSorts(rs, keys);
  }

  /** remove_resequence, on the contents. */
  function Resequenced(rs: seq<Rec>): seq<Rec>
    requires AllResequenceReadable(rs)
  {
    ArrangedReadable(rs, NameKeys(rs));
    ResequenceFrom(Arranged(rs, NameKeys(rs)), 0)
  }

  /** A group keeps at least one of its records, and no others. */
  lemma GroupResultMembers(g: seq<Rec>)
    requires AllResequenceReadable(g) && g != []
    ensures 1 <= |GroupResult(g)| <= |g|
    ensures forall x :: x in GroupResult(g) ==> exists k :: 0 <= k < |g| && x == PaddedRec(g[k])
  {
    var pg := PaddedRecs(g);
    var bg := Arranged(pg, PosKeys(pg));
    ArrangedReadable(pg, PosKeys(pg));
    RetainedForm(bg);
    ArrangedSame(pg, PosKeys(pg));
    forall x | x in GroupResult(g) ensures exists k :: 0 <= k < |g| && x == PaddedRec(g[k]) {
      assert x in pg;
      var k :| 0 <= k < |pg| && pg[k] == x;
      PaddedRecsAt(g, k);
    }
  }

  /** The groups from i on emit no more records than they hold, each the padded form of
      one of them, and every QNAME among them is kept. */
  lemma {:induction false} ResequenceFromMembers(s: seq<Rec>, i: nat)
    requires AllResequenceReadable(s) && i <= |s|
    ensures |ResequenceFrom(s, i)| <= |s| - i
    ensures forall x :: x in ResequenceFrom(s, i) ==> exists k :: i <= k < |s| && x == PaddedRec(s[k])
    ensures forall k :: i <= k < |s| ==> s[k].qname in Qnames(ResequenceFrom(s, i))
    decreases |s| - i
  {
    if i < |s| {
      var e := RunEnd(s, i, i + 1);
      ResequenceFromMembers(s, e);
      GroupMembers(s, i, e);
      var head, rest := GroupResult(s[i..e]), ResequenceFrom(s, e);
      assert ResequenceFrom(s, i) == head + rest;
      QnamesConcat(head, rest);
      forall x | x in head + rest ensures exists k :: i <= k < |s| && x == PaddedRec(s[k]) {
        if x in head {
          var k :| i <= k < e && x == PaddedRec(s[k]);
        } else {
          assert x in rest;
          var k :| e <= k < |s| && x == PaddedRec(s[k]);
        }
      }
    }
  }

  lemma QnamesConcat(a: seq<Rec>, b: seq<Rec>)
    ensures Qnames(a + b) == Qnames(a) + Qnames(b)
  {
    forall q | q in Qnames(a + b) ensures q in Qnames(a) + Qnames(b) {
      var k :| 0 <= k < |a + b| && (a + b)[k].qname == q;
      if k >= |a| {
        assert b[k - |a|].qname == q;
      }
    }
    forall q | q in Qnames(b) ensures q in Qnames(a + b) {
      var k :| 0 <= k < |b| && b[k].qname == q;
      assert (a + b)[|a| + k].qname == q;
    }
    forall q | q in Qnames(a) ensures q in Qnames(a + b) {
      var k :| 0 <= k < |a| && a[k].qname == q;
      assert (a + b)[k].qname == q;
    }
  }

  /** The records the group of s[i] emits, ending at e. */
  lemma GroupMembers(s: seq<Rec>, i: nat, e: nat)
    requires AllResequenceReadable(s) && i < |s| && e == RunEnd(s, i, i + 1)
    ensures |GroupResult(s[i..e])| <= e - i
    ensures forall x :: x in GroupResult(s[i..e]) ==> exists k :: i <= k < e && x == PaddedRec(s[k])
    ensures forall k :: i <= k < e ==> s[k].qname in Qnames(GroupResult(s[i..e]))
  {
    var g := s[i..e];
    GroupResultMembers(g);
    forall x | x in GroupResult(g) ensures exists k :: i <= k < e && x == PaddedRec(s[k]) {
      var k :| 0 <= k < |g| && x == PaddedRec(g[k]);
      assert g[k] == s[i + k];
    }
    var x := GroupResult(g)[0];
    assert x in GroupResult(g);
    var k :| i <= k < e && x == PaddedRec(s[k]);
    assert x.qname == s[i].qname;
  }

  /** remove_resequence never emits more records than it is given, each of them is one of
      them padded with 'N's, and it keeps every read: the QNAMEs are the same. */
  lemma ResequencedKeeps(rs: seq<Rec>)
    requires AllResequenceReadable(rs)
    ensures |Resequenced(rs)| <= |rs|
    ensures forall x :: x in Resequenced(rs) ==> exists k :: 0 <= k < |rs| && x == PaddedRec(rs[k])
    ensures Qnames(Resequenced(rs)) == Qnames(rs)
  {
    var s := Arranged(rs, NameKeys(rs));
    ArrangedReadable(rs, NameKeys(rs));
    ArrangedSame(rs, NameKeys(rs));
    ResequenceFromMembers(s, 0);
    forall x | x in Resequenced(rs) ensures exists k :: 0 <= k < |rs| && x == PaddedRec(rs[k]) {
      var k :| 0 <= k < |s| && x == PaddedRec(s[k]);
      assert s[k] in rs;
    }
    forall q | q in Qnames(Resequenced(rs)) ensures q in Qnames(rs) {
      var a :| 0 <= a < |Resequenced(rs)| && Resequenced(rs)[a].qname == q;
      assert Resequenced(rs)[a] in Resequenced(rs);
      var k :| 0 <= k < |rs| && Resequenced(rs)[a] == PaddedRec(rs[k]);
    }
    forall q | q in Qnames(rs) ensures q in Qnames(Resequenced(rs)) {
      var k :| 0 <= k < |rs| && rs[k].qname == q;
      assert rs[k] in s;
    }
  }

  method PadAt(records: seq<Alignment>, n: nat, ghost start: seq<Rec>)
    requires Distinct(records) && n < |records| == |start| && AllResequenceReadable(start)
    requires UpdatedUpTo(records, start, PaddedRecs(start), n)
    modifies records[n]
    ensures UpdatedUpTo(records, start, PaddedRecs(start), n + 1)
  {
    PaddedRecsAt(start, n);
    PadSequence(records[n]);
  }

  /** _padding_n_to_sequence applied to every record of a group. */
  method PadGroup(group: seq<Alignment>, ghost g: seq<Rec>)
    requires Distinct(group) && Values(group) == g && AllResequenceReadable(g)
    modifies group
    ensures Values(group) == PaddedRecs(g)
  {
    for n := 0 to |group|
      invariant UpdatedUpTo(group, g, PaddedRecs(g), n)
    {
      PadAt(group, n, g);
    }
    ValuesAre(group, PaddedRecs(g));
  }

  /** The state of the loop over a group sorted by POS before record i, the records
      retained so far being kept. */
  predicate RetainedUpTo(group: seq<Alignment>, g: seq<Rec>, kept: seq<Alignment>, i: nat)
    reads group, kept
  {
    && 1 <= i <= |group| == |g| && AllResequenceReadable(g) && kept != []
    && (forall k :: 0 <= k < |group| ==> group[k].Value() == g[k])
    && (forall a :: 0 <= a < |kept| ==> kept[a] in group)
    && AllResequenceReadable(Values(kept))
    && RetainFrom(g, i, Values(kept)) == Retained(g)
  }

  lemma RetainedUpToStart(group: seq<Alignment>, g: seq<Rec>)
    requires 1 <= |group| == |g| && AllResequenceReadable(g)
    requires forall k :: 0 <= k < |group| ==> group[k].Value() == g[k]
    ensures RetainedUpTo(group, g, [group[0]], 1)
  {
    assert Values([group[0]]) == [g[0]];
  }

  /** One turn of the loop over a group: whether record i is a resequence of the last
      record retained, and the records retained after it when it is not. */
  method RetainNext(group: seq<Alignment>, ghost g: seq<Rec>, kept: seq<Alignment>, i: nat)
    returns (resequenced: bool, more: seq<Alignment>)
    requires i < |group| && RetainedUpTo(group, g, kept, i)
    ensures resequenced ==> Retained(g) == [g[LongestUpTo(g, |g|)]]
    ensures !resequenced ==> RetainedUpTo(group, g, more, i + 1)
  {
    var last := kept[|kept| - 1];
    assert last.Value() == Values(kept)[|kept| - 1];
    resequenced := ResequenceCheck(last, group[i]);
    if !resequenced {
      ValuesPush(kept, group[i]);
      more := kept + [group[i]];
    } else {
      more := kept;
    }
  }

  /** The loop of remove_resequence over one group sorted by POS. */
  method RetainGroup(group: seq<Alignment>, ghost g: seq<Rec>) returns (retained: seq<Alignment>)
    requires 1 <= |group| && Values(group) == g && AllResequenceReadable(g)
    ensures Values(retained) == Retained(g)
    ensures forall a :: 0 <= a < |retained| ==> retained[a] in group
  {
    var longestAlignment := group[LongestUpTo(Values(group), |group|)];
    RetainedUpToStart(group, g);
    retained := [group[0]];
    var i := 1;
    while i < |group|
      invariant RetainedUpTo(group, g, retained, i)
      decreases |group| - i
    {
      var resequenced, more := RetainNext(group, g, retained, i);
      if resequenced {
        retained := [longestAlignment];
        assert Values(retained) == [g[LongestUpTo(g, |g|)]];
        return;
      }
      retained := more;
      i := i + 1;
    }
  }

  /** The records of one read: padded, sorted by POS, and reduced to those retained. */
  method ProcessGroup(group: seq<Alignment>, ghost g: seq<Rec>) returns (retained: seq<Alignment>)
    requires 1 <= |group| && Distinct(group) && Values(group) == g && AllResequenceReadable(g)
    modifies group
    ensures Values(retained) == GroupResult(g)
    ensures forall a :: 0 <= a < |retained| ==> retained[a] in group
  {
    PadGroup(group, g);
    ghost var pg := PaddedRecs(g);
    var byPos := SortBy(group, PosKeys(Values(group)), pg);
    ArrangedReadable(pg, PosKeys(pg));
    retained := RetainGroup(byPos, Arranged(pg, PosKeys(pg)));
  }

  /** The state of the loop of remove_resequence over the groups before the group
      starting at i: the records from i on are untouched, the records emitted so far are
      among the sorted ones before i, and with those the rest emits they make up target. */
  predicate FilteredUpTo(sorted: seq<Alignment>, sv: seq<Rec>, filtered: seq<Alignment>, i: nat, target: seq<Rec>)
    reads sorted, filtered
  {
    && i <= |sorted| == |sv| && Distinct(sorted) && AllResequenceReadable(sv)
    && (forall k :: i <= k < |sorted| ==> sorted[k].Value() == sv[k])
    && (forall a :: 0 <= a < |filtered| ==> filtered[a] in sorted)
    && (forall a, k :: 0 <= a < |filtered| && i <= k < |sorted| ==> filtered[a] != sorted[k])
    && Values(filtered) + ResequenceFrom(sv, i) == target
  }

  lemma ResequenceFromStep(s: seq<Rec>, i: nat, prefix: seq<Rec>)
    requires AllResequenceReadable(s) && i < |s|
    ensures prefix + ResequenceFrom(s, i)
      == (prefix + GroupResult(s[i..RunEnd(s, i, i + 1)])) + ResequenceFrom(s, RunEnd(s, i, i + 1))
  {
  }

  /** The records of one read, sorted[i..e], processed; the records emitted before are
      not among them and stay as they are. */
  method ProcessRun(sorted: seq<Alignment>, i: nat, e: nat, ghost sv: seq<Rec>, ghost filtered: seq<Alignment>)
    returns (retained: seq<Alignment>)
    requires Distinct(sorted) && i < e <= |sorted| == |sv| && AllResequenceReadable(sv)
    requires forall k :: i <= k < |sorted| ==> sorted[k].Value() == sv[k]
    requires forall a, k :: 0 <= a < |filtered| && i <= k < |sorted| ==> filtered[a] != sorted[k]
    modifies sorted[i..e]
    ensures Values(retained) == GroupResult(sv[i..e])
    ensures forall a :: 0 <= a < |retained| ==> retained[a] in sorted
    ensures forall a, k :: 0 <= a < |retained| && e <= k < |sorted| ==> retained[a] != sorted[k]
    ensures forall a :: 0 <= a < |filtered| ==> unchanged(filtered[a])
    ensures forall k :: e <= k < |sorted| ==> unchanged(sorted[k])
  {
    var group := sorted[i..e];
    ValuesAre(group, sv[i..e]);
    SliceOutside(sorted, i, e, filtered);
    DistinctOutside(sorted, i, e);
    retained := ProcessGroup(group, sv[i..e]);
    SliceMembers(sorted, i, e, retained);
  }

  lemma SliceMembers(sorted: seq<Alignment>, i: nat, e: nat, picked: seq<Alignment>)
    requires Distinct(sorted) && i <= e <= |sorted|
    requires forall a :: 0 <= a < |picked| ==> picked[a] in sorted[i..e]
    ensures forall a :: 0 <= a < |picked| ==> picked[a] in sorted
    ensures forall a, k :: 0 <= a < |picked| && e <= k < |sorted| ==> picked[a] != sorted[k]
  {
    forall a | 0 <= a < |picked| ensures picked[a] in sorted && forall k :: e <= k < |sorted| ==> picked[a] != sorted[k] {
      var j :| 0 <= j < e - i && sorted[i..e][j] == picked[a];
      assert sorted[i + j] == picked[a];
    }
  }

  /** One turn of the loop over the groups: the group starting at i is processed and the
      records it retains appended to those emitted so far. */
  method FilterNext(sorted: seq<Alignment>, i: nat, ghost sv: seq<Rec>, filtered: seq<Alignment>, ghost target: seq<Rec>)
    returns (e: nat, more: seq<Alignment>)
    requires i < |sorted| && FilteredUpTo(sorted, sv, filtered, i, target)
    modifies sorted
    ensures i < e && FilteredUpTo(sorted, sv, more, e, target)
  {
    ghost var prefix := Values(filtered);
    e := FindRunEnd(sorted, i, sv);
    ResequenceFromStep(sv, i, prefix);
    var retained := ProcessRun(sorted, i, e, sv, filtered);
    ValuesUnchanged(filtered);
    ValuesConcat(filtered, retained);
    more := filtered + retained;
  }

  lemma FilteredStart(sorted: seq<Alignment>, sv: seq<Rec>)
    requires Distinct(sorted) && Values(sorted) == sv && AllResequenceReadable(sv)
    ensures FilteredUpTo(sorted, sv, [], 0, ResequenceFrom(sv, 0))
  {
    assert Values([]) == [];
  }

  /** The loop of remove_resequence over the groups of records sharing a QNAME. */
  method FilterGroups(sorted: seq<Alignment>, ghost sv: seq<Rec>, ghost target: seq<Rec>)
    returns (filtered: seq<Alignment>)
    requires FilteredUpTo(sorted, sv, [], 0, target)
    modifies sorted
    ensures Values(filtered) == target
    ensures forall a :: 0 <= a < |filtered| ==> filtered[a] in sorted
  {
    filtered := [];
    var i := 0;
    while i < |sorted|
      invariant FilteredUpTo(sorted, sv, filtered, i, target)
      decreases |sorted| - i
    {
      i, filtered := FilterNext(sorted, i, sv, filtered, target);
    }
  }

  /** remove_resequence: the records sorted by QNAME, and every read's records padded,
      sorted by POS and reduced to those retained; the records emitted are among those
      given. */
  method RemoveResequence(alignments: seq<Alignment>, ghost start: seq<Rec>) returns (filtered: seq<Alignment>)
    requires Distinct(alignments) && Values(alignments) == start && AllResequenceReadable(start)
    modifies alignments
    ensures Values(filtered) == Resequenced(start)
    ensures forall a :: 0 <= a < |filtered| ==> filtered[a] in alignments
  {
    var sorted := SortBy(alignments, NameKeys(Values(alignments)), start);
    ghost var sv := Arranged(start, NameKeys(start));
    ArrangedReadable(start, NameKeys(start));
    FilteredStart(sorted, sv);
    filtered := FilterGroups(sorted, sv, Resequenced(start));
  }

  // ---------------------------------------------------------------------------
  // alignments_to_dict
  // ---------------------------------------------------------------------------

  /** re.search(r":[0-9]+", a): a colon followed by a digit, as the short form of the
      cs tag writes identical stretches (":10"). */
  predicate HasColonDigit(a: string)
  {
    exists k :: 0 <= k < |a| - 1 && a[k] == ':' && IsDigit(a[k + 1])
  }

  /** A cs tag in the long form: a field that starts with "cs:Z:" and has no colon
      followed by a digit. */
  predicate IsLongCs(a: string)
  {
    StartsWith(a, "cs:Z:") && !HasColonDigit(a)
  }

  /** The index of the last long cs tag among the first n fields of a line. */
  function LastLongCs(fields: seq<string>, n: nat): (idx: Option<nat>)
    requires n <= |fields|
    ensures idx.Some? ==> idx.value < n && IsLongCs(fields[idx.value])
    ensures forall j :: (if idx.Some? then idx.value + 1 else 0) <= j < n ==> !IsLongCs(fields[j])
  {
    if n == 0 then None
    else if IsLongCs(fields[n - 1]) then Some(n - 1)
    else LastLongCs(fields, n - 1)
  }

  /** The loop over the fields of one line: the last long cs tag wins. */
  method FindCsTag(alignment: seq<string>) returns (idxCstag: Option<nat>)
    ensures idxCstag == LastLongCs(alignment, |alignment|)
  {
    idxCstag := None;
    for i := 0 to |alignment|
      invariant idxCstag == LastLongCs(alignment, i)
    {
      if IsLongCs(alignment[i]) {
        idxCstag := Some(i);
      }
    }
  }

  /** A line alignments_to_dict reads without an error: the fields it looks at are
      there, and FLAG and POS are numerals when it builds a record. */
  predicate LineReadable(line: seq<string>)
  {
    |line| >= 1 && (!StartsWith(line[0], "@") ==> MappedReadable(line))
  }

  /** The part of LineReadable about a line that is not a header. */
  predicate MappedReadable(line: seq<string>)
  {
    |line| >= 3 && (line[2] != "*" ==> |line| >= 10 && (line[9] != "*" ==> RecordReadable(line)))
  }

  /** The part of LineReadable about a line with RNAME and SEQ. */
  predicate RecordReadable(line: seq<string>)
  {
    LastLongCs(line, |line|).Some? ==> |line| >= 11 && IsNumeral(line[1]) && IsNumeral(line[3])
  }

  predicate LinesReadable(sam: seq<seq<string>>)
  {
    forall i :: 0 <= i < |sam| ==> LineReadable(sam[i])
  }

  /** A line alignments_to_dict turns into a record: not a header, mapped (RNAME not
      "*"), with a SEQ, and with a long cs tag. */
  predicate Kept(line: seq<string>)
    requires LineReadable(line)
  {
    !StartsWith(line[0], "@") && line[2] != "*" && line[9] != "*" && LastLongCs(line, |line|).Some?
  }

  /** The record of a kept line: QNAME with its commas replaced by underscores, FLAG,
      RNAME, POS, CIGAR, SEQ, QUAL and the cs tag. */
  function Dict(line: seq<string>): Rec
    requires LineReadable(line) && Kept(line)
  {
    Rec(ReplaceChar(line[0], ',', '_'), ParseNat(line[1]), line[2], ParseNat(line[3]), line[5],
        line[9], line[10], line[LastLongCs(line, |line|).value], [], None, {})
  }

  /** The records of the kept lines among the first n, in their order. */
  function DictsUpTo(sam: seq<seq<string>>, n: nat): seq<Rec>
    requires n <= |sam| && LinesReadable(sam)
  {
    if n == 0 then []
    else DictsUpTo(sam, n - 1) + (if Kept(sam[n - 1]) then [Dict(sam[n - 1])] else [])
  }

  /** alignments_to_dict, on the contents. */
  function Dicts(sam: seq<seq<string>>): seq<Rec>
    requires LinesReadable(sam)
  {
    DictsUpTo(sam, |sam|)
  }

  /** A record is among those of the first n lines exactly when it is the record of a
      kept line among them; there are no more records than lines. */
  lemma {:induction false} DictsFromLines(sam: seq<seq<string>>, n: nat)
    requires n <= |sam| && LinesReadable(sam)
    ensures |DictsUpTo(sam, n)| <= n
    ensures forall x :: x in DictsUpTo(sam, n) <==> exists i :: 0 <= i < n && Kept(sam[i]) && x == Dict(sam[i])
  {
    if n > 0 {
      DictsFromLines(sam, n - 1);
    }
  }

  /** The record of a kept line: QNAME has no comma and otherwise keeps its characters,
      RNAME and SEQ are not "*", the cs tag is in the long form, and there are no MIDSV
      or QSCORE yet. */
  lemma DictClean(line: seq<string>)
    requires LineReadable(line) && Kept(line)
    ensures var r := Dict(line);
      && Count(r.qname, ',') == 0 && |r.qname| == |line[0]|
      && (forall k :: 0 <= k < |line[0]| && line[0][k] != ',' ==> r.qname[k] == line[0][k])
      && r.rname == line[2] != "*" && r.sequence == line[9] != "*"
      && IsLongCs(r.cstag) && r.cstag in line
      && r.midsv == [] && r.qscore == None
  {
    ReplaceCharRemoves(line[0], ',', '_');
  }

  /** The body of the loop of alignments_to_dict, for one line: a new record when the
      line is kept, none otherwise. */
  method DictOf(alignment: seq<string>) returns (d: Option<Alignment>)
    requires LineReadable(alignment)
    ensures d.Some? <==> Kept(alignment)
    ensures d.Some? ==> fresh(d.value) && d.value.Value() == Dict(alignment)
  {
    d := None;
    if StartsWith(alignment[0], "@") {
      return;
    }
    if alignment[2] == "*" || alignment[9] == "*" {
      return;
    }
    var idxCstag := FindCsTag(alignment);
    if idxCstag.None? {
      return;
    }
    var a := new Alignment(ReplaceChar(alignment[0], ',', '_'), ParseNat(alignment[1]), alignment[2],
      ParseNat(alignment[3]), alignment[5], alignment[9], alignment[10], alignment[idxCstag.value]);
    d := Some(a);
  }

  /** The state of the loop of alignments_to_dict before line i. */
  predicate DictsMade(sam: seq<seq<string>>, aligns: seq<Alignment>, i: nat)
    reads aligns
    requires LinesReadable(sam) && i <= |sam|
  {
    Distinct(aligns) && Values(aligns) == DictsUpTo(sam, i)
  }

  method DictNext(sam: seq<seq<string>>, aligns: seq<Alignment>, i: nat) returns (more: seq<Alignment>)
    requires LinesReadable(sam) && i < |sam| && DictsMade(sam, aligns, i)
    ensures DictsMade(sam, more, i + 1)
    ensures forall a :: 0 <= a < |more| ==> (a < |aligns| && more[a] == aligns[a]) || fresh(more[a])
  {
    ghost var made := Values(aligns);
    var d := DictOf(sam[i]);
    assert Values(aligns) == made;
    if d.Some? {
      assert d.value !in aligns;
      DistinctPush(aligns, d.value);
      ValuesPush(aligns, d.value);
      more := aligns + [d.value];
      assert Values(more) == DictsUpTo(sam, i) + [Dict(sam[i])];
    } else {
      more := aligns;
    }
  }

  /** alignments_to_dict: a new record for every kept line, in the order of the lines. */
  method AlignmentsToDict(sam: seq<seq<string>>) returns (aligns: seq<Alignment>)
    requires LinesReadable(sam)
    ensures Distinct(aligns) && Values(aligns) == Dicts(sam)
    ensures forall a :: 0 <= a < |aligns| ==> fresh(aligns[a])
  {
    aligns := [];
    assert Values(aligns) == [];
    for i := 0 to |sam|
      invariant DictsMade(sam, aligns, i)
      invariant forall a :: 0 <= a < |aligns| ==> fresh(aligns[a])
    {
      aligns := DictNext(sam, aligns, i);
    }
  }

  // ---------------------------------------------------------------------------
  // organize_alignments_to_dict
  // ---------------------------------------------------------------------------

  /** The lines organize_alignments_to_dict reads without an error: alignments_to_dict
      reads them, and the CIGARs of the records it makes can be read by remove_softclips,
      _padding_n_to_sequence and _return_end_of_current_read. */
  predicate OrganizeReadable(sam: seq<seq<string>>)
  {
    && LinesReadable(sam)
    && forall i :: 0 <= i < |sam| && Kept(sam[i]) ==> ClipsReadable(Dict(sam[i])) && ResequenceReadable(Dict(sam[i]))
  }

  lemma DictsReadable(sam: seq<seq<string>>)
    requires OrganizeReadable(sam)
    ensures forall k :: 0 <= k < |Dicts(sam)| ==> ClipsReadable(Dicts(sam)[k])
    ensures AllResequenceReadable(UnclippedAll(Dicts(sam)))
  {
    DictsFromLines(sam, |sam|);
    var d := Dicts(sam);
    forall k | 0 <= k < |d| ensures ClipsReadable(d[k]) && ResequenceReadable(d[k]) {
      assert d[k] in d;
    }
    forall k | 0 <= k < |d| ensures ResequenceReadable(UnclippedAll(d)[k]) {
      UnclippedAllAt(d, k);
    }
  }

  /** organize_alignments_to_dict, on the contents. */
  function Organized(sam: seq<seq<string>>): seq<Rec>
    requires OrganizeReadable(sam)
  {
    DictsReadable(sam);
    ByNameAndPos(Resequenced(UnclippedAll(Dicts(sam))))
  }

  /** organize_alignments_to_dict: alignments_to_dict, remove_softclips and
      remove_resequence, then sorted by [QNAME, POS]; every record is new. */
  method OrganizeAlignmentsToDict(sam: seq<seq<string>>) returns (sorted: seq<Alignment>)
    requires OrganizeReadable(sam)
    ensures Values(sorted) == Organized(sam)
    ensures forall a :: 0 <= a < |sorted| ==> fresh(sorted[a])
  {
    var aligns := AlignmentsToDict(sam);
    ghost var d := Dicts(sam);
    DictsReadable(sam);
    aligns := RemoveSoftclips(aligns, d);
    var filtered := RemoveResequence(aligns, UnclippedAll(d));
    sorted := SortByNameAndPos(filtered, Resequenced(UnclippedAll(d)));
  }

  /** Every record organize_alignments_to_dict emits is the record of a kept line, soft
      clips removed and padded; there are no more of them than lines. */
  lemma OrganizedFromLines(sam: seq<seq<string>>)
    requires OrganizeReadable(sam)
    ensures |Organized(sam)| <= |sam|
    ensures forall x :: x in Organized(sam) ==>
      exists i :: 0 <= i < |sam| && Kept(sam[i]) && x == PaddedRec(Unclipped(Dict(sam[i])))
  {
    DictsReadable(sam);
    var d := Dicts(sam);
    var u := UnclippedAll(d);
    var r := Resequenced(u);
    DictsFromLines(sam, |sam|);
    ResequencedKeeps(u);
    ArrangedSame(r, NamePosKeys(r));
    forall x | x in Organized(sam)
      ensures exists i :: 0 <= i < |sam| && Kept(sam[i]) && x == PaddedRec(Unclipped(Dict(sam[i])))
    {
      assert x in r;
      var k :| 0 <= k < |u| && x == PaddedRec(u[k]);
      UnclippedAllAt(d, k);
      assert d[k] in d;
      var i :| 0 <= i < |sam| && Kept(sam[i]) && d[k] == Dict(sam[i]);
    }
  }

  /** The QNAMEs of the records alignments_to_dict and remove_softclips make are those
      of the kept lines, commas replaced by underscores. */
  lemma UnclippedQnames(sam: seq<seq<string>>)
    requires OrganizeReadable(sam)
    ensures forall k :: 0 <= k < |Dicts(sam)| ==> ClipsReadable(Dicts(sam)[k])
    ensures forall q :: q in Qnames(UnclippedAll(Dicts(sam))) <==>
      exists i :: 0 <= i < |sam| && Kept(sam[i]) && q == ReplaceChar(sam[i][0], ',', '_')
  {
    DictsReadable(sam);
    var d := Dicts(sam);
    var u := UnclippedAll(d);
    DictsFromLines(sam, |sam|);
    forall q | q in Qnames(u) ensures exists i :: 0 <= i < |sam| && Kept(sam[i]) && q == ReplaceChar(sam[i][0], ',', '_') {
      var k :| 0 <= k < |u| && u[k].qname == q;
      UnclippedAllAt(d, k);
      assert d[k] in d;
    }
    forall i | 0 <= i < |sam| && Kept(sam[i]) ensures ReplaceChar(sam[i][0], ',', '_') in Qnames(u) {
      assert Dict(sam[i]) in d;
      var k :| 0 <= k < |d| && d[k] == Dict(sam[i]);
      UnclippedAllAt(d, k);
      assert u[k].qname == ReplaceChar(sam[i][0], ',', '_');
    }
  }

  /** organize_alignments_to_dict keeps every read: its QNAMEs are those of the kept
      lines, commas replaced by underscores. */
  lemma OrganizedQnames(sam: seq<seq<string>>)
    requires OrganizeReadable(sam)
    ensures forall q :: q in Qnames(Organized(sam)) <==>
      exists i :: 0 <= i < |sam| && Kept(sam[i]) && q == ReplaceChar(sam[i][0], ',', '_')
  {
    DictsReadable(sam);
    var u := UnclippedAll(Dicts(sam));
    var r := Resequenced(u);
    UnclippedQnames(sam);
    ResequencedKeeps(u);
    ArrangedQnames(r, NamePosKeys(r));
  }

  /** The records organize_alignments_to_dict emits are sorted by [QNAME, POS], have no
      comma in QNAME, carry a long cs tag, and have no MIDSV or QSCORE yet. */
  lemma OrganizedClean(sam: seq<seq<string>>)
    requires OrganizeReadable(sam)
    ensures var o := Organized(sam);
      forall a, b :: 0 <= a < b < |o| ==> KeyLe((o[a].qname, o[a].pos), (o[b].qname, o[b].pos))
    ensures forall x :: x in Organized(sam) ==>
      Count(x.qname, ',') == 0 && IsLongCs(x.cstag) && x.midsv == [] && x.qscore == None
  {
    DictsReadable(sam);
    ByNameAndPosSorts(Resequenced(UnclippedAll(Dicts(sam))));
    OrganizedFromLines(sam);
    forall x | x in Organized(sam) ensures Count(x.qname, ',') == 0 && IsLongCs(x.cstag) && x.midsv == [] && x.qscore == None {
      var i :| 0 <= i < |sam| && Kept(sam[i]) && x == PaddedRec(Unclipped(Dict(sam[i])));
      DictClean(sam[i]);
    }
  }
}
