/** The checks of the arguments and of the SAM input that run before conversion: the
    `keep` argument of polish, the presence of @SQ headers, and alignments that are
    mapped and carry a long-form cs tag. A check that fails raises an exception in the
    program; here it returns the exception and its message. */
module Validator {
  import opened Strings
  import opened Records
  import opened Formatter
  import Polisher

  /** How a check ends: it returns a value, or raises a ValueError with a message, or an
      IndexError (a field read past the end of a line). */
  datatype Outcome<T> = Ok(value: T) | ValueError(message: string) | IndexError

  // ---------------------------------------------------------------------------
  // keep_argument
  // ---------------------------------------------------------------------------

  /** The `keep` argument as the caller passes it: None, one key, or a list of keys. */
  datatype Keep = NoKeys | OneKey(key: string) | KeyList(keys: seq<string>)

  const KeepMessage: string := "'keep' must be a subset of {'FLAG', 'POS', 'SEQ', 'QUAL', 'CIGAR', 'CSTAG'}"

  /** The keys of the argument, as a list: none for None, [keep] for one key. */
  function KeepList(keep: Keep): seq<string>
  {
    match keep
    case NoKeys => []
    case OneKey(key) => [key]
    case KeyList(keys) => keys
  }

  function KeepArgument(keep: Keep): Outcome<seq<string>>
  {
    var keys := KeepList(keep);
    var keepSet := set k | k in keys;
    if !(keepSet <= SelectableKeys) then ValueError(KeepMessage) else Ok(keys)
  }

  /** keep_argument accepts the argument exactly when every key is one select may
      remove, and then returns its keys; the keys polish deletes are the others. */
  lemma KeepArgumentMeaning(keep: Keep)
    ensures KeepArgument(keep).Ok? <==> forall k :: k in KeepList(keep) ==> k in SelectableKeys
    ensures KeepArgument(keep).Ok? ==> KeepArgument(keep).value == KeepList(keep)
    ensures KeepArgument(keep).ValueError? <==> exists k :: k in KeepList(keep) && k !in SelectableKeys
    ensures !KeepArgument(keep).IndexError?
  {
    var keys := KeepList(keep);
    var keepSet := set k | k in keys;
    if !(keepSet <= SelectableKeys) {
      var k :| k in keepSet && k !in SelectableKeys;
      assert k in keys;
    }
  }

  /** For accepted keys, the keys polish deletes and the keys kept are disjoint and
      together all the keys select may remove. */
  lemma KeepArgumentDeletes(keep: Keep)
    requires KeepArgument(keep).Ok?
    ensures var kept := set k | k in KeepArgument(keep).value;
      Polisher.Deleted(kept) !! kept && Polisher.Deleted(kept) + kept == SelectableKeys
  {
  }

  // ---------------------------------------------------------------------------
  // sam_headers
  // ---------------------------------------------------------------------------

  const NoSqMessage: string := "Input does not have @SQ header"

  /** The lines that have a field "@SQ". */
  function SqLines(sam: seq<seq<string>>): (lines: seq<seq<string>>)
    ensures forall l :: l in lines <==> l in sam && IsSqHeader(l)
  {
    if sam == [] then []
    else (if IsSqHeader(sam[0]) then [sam[0]] else []) + SqLines(sam[1..])
  }

  function SamHeaders(sam: seq<seq<string>>): Outcome<()>
  {
    var sqheaders := SqLines(sam);
    if sqheaders == [] then ValueError(NoSqMessage) else Ok(())
  }

  /** sam_headers passes exactly when some line is an @SQ header, and then
      extract_sqheaders sees it. */
  lemma SamHeadersMeaning(sam: seq<seq<string>>)
    ensures SamHeaders(sam).Ok? <==> exists i :: 0 <= i < |sam| && IsSqHeader(sam[i])
    ensures SamHeaders(sam).ValueError? <==> forall i :: 0 <= i < |sam| ==> !IsSqHeader(sam[i])
  {
    if SamHeaders(sam).Ok? {
      var l := SqLines(sam)[0];
      assert l in SqLines(sam);
    }
    if i :| 0 <= i < |sam| && IsSqHeader(sam[i]) {
      assert sam[i] in SqLines(sam);
    }
  }

  // ---------------------------------------------------------------------------
  // sam_alignments
  // ---------------------------------------------------------------------------

  const ColumnsMessage: string := "Alignment may not be SAM format because it has less than 10 columns"
  const NoQualMessage: string := "Input does not have QUAL information"
  const NoCsMessage: string := "Input does not have long-formatted cs tag"
  const NoAlignmentMessage: string := "No alignment information"

  /** What sam_alignments makes of one line. */
  datatype LineVerdict = Header | Unmapped | Mapped | Fails(raised: Outcome<()>)

  /** A field of the line is a cs tag in the long form. */
  predicate HasLongCs(line: seq<string>)
  {
    exists j :: 0 <= j < |line| && IsLongCs(line[j])
  }

  function CheckLine(line: seq<string>, qscore: bool): LineVerdict
  {
    if |line| == 0 then Fails(IndexError)
    else if StartsWith(line[0], "@") then Header
    else if |line| < 10 then Fails(ValueError(ColumnsMessage))
    else if line[2] == "*" || line[9] == "*" then Unmapped
    else if qscore && |line| < 11 then Fails(IndexError)
    else if qscore && line[10] == "*" then Fails(ValueError(NoQualMessage))
    else if !HasLongCs(line) then Fails(ValueError(NoCsMessage))
    else Mapped
  }

  /** The loop of sam_alignments from line i on, hasAlignment telling whether a mapped
      line came before: the first line that fails ends it. */
  function CheckFrom(sam: seq<seq<string>>, qscore: bool, i: nat, hasAlignment: bool): Outcome<()>
    requires i <= |sam|
    decreases |sam| - i
  {
    if i == |sam| then (if hasAlignment then Ok(()) else ValueError(NoAlignmentMessage))
    else match CheckLine(sam[i], qscore)
      case Fails(raised) => raised
      case Mapped => CheckFrom(sam, qscore, i + 1, true)
      case _ => CheckFrom(sam, qscore, i + 1, hasAlignment)
  }

  function SamAlignmentsCheck(sam: seq<seq<string>>, qscore: bool): Outcome<()>
  {
    CheckFrom(sam, qscore, 0, false)
  }

  /** The inner loop of sam_alignments: the first long cs tag of a line. */
  method FirstCsTag(alignment: seq<string>) returns (idxCstag: Option<nat>)
    ensures idxCstag.Some? <==> HasLongCs(alignment)
    ensures idxCstag.Some? ==> idxCstag.value < |alignment| && IsLongCs(alignment[idxCstag.value])
    ensures idxCstag.Some? ==> forall j :: 0 <= j < idxCstag.value ==> !IsLongCs(alignment[j])
  {
    idxCstag := None;
    for i := 0 to |alignment|
      invariant forall j :: 0 <= j < i ==> !IsLongCs(alignment[j])
    {
      if IsLongCs(alignment[i]) {
        idxCstag := Some(i);
        return;
      }
    }
  }

  /** The body of the loop of sam_alignments for one line. */
  method CheckOne(alignment: seq<string>, qscore: bool) returns (verdict: LineVerdict)
    ensures verdict == CheckLine(alignment, qscore)
  {
    if |alignment| == 0 {
      return Fails(IndexError);
    }
    if StartsWith(alignment[0], "@") {
      return Header;
    }
    if |alignment| < 10 {
      return Fails(ValueError(ColumnsMessage));
    }
    if alignment[2] == "*" || alignment[9] == "*" {
      return Unmapped;
    }
    if qscore && |alignment| < 11 {
      return Fails(IndexError);
    }
    if qscore && alignment[10] == "*" {
      return Fails(ValueError(NoQualMessage));
    }
    var idxCstag := FirstCsTag(alignment);
    if idxCstag.None? {
      return Fails(ValueError(NoCsMessage));
    }
    return Mapped;
  }

  /** sam_alignments: the first line that fails raises its error; otherwise sam_alignments
      passes when some line is mapped. */
  method SamAlignments(sam: seq<seq<string>>, qscore: bool) returns (outcome: Outcome<()>)
    ensures outcome == SamAlignmentsCheck(sam, qscore)
  {
    var hasAlignment := false;
    for i := 0 to |sam|
      invariant CheckFrom(sam, qscore, i, hasAlignment) == SamAlignmentsCheck(sam, qscore)
    {
      var verdict := CheckOne(sam[i], qscore);
      if verdict.Fails? {
        return verdict.raised;
      }
      if verdict.Mapped? {
        hasAlignment := true;
      }
    }
    if !hasAlignment {
      return ValueError(NoAlignmentMessage);
    }
    return Ok(());
  }

  /** A line that does not fail. */
  predicate Passes(line: seq<string>, qscore: bool)
  {
    !CheckLine(line, qscore).Fails?
  }

  /** The loop from line i passes exactly when no line from i on fails and a mapped line
      comes before i or from i on. */
  lemma {:induction false} CheckFromPasses(sam: seq<seq<string>>, qscore: bool, i: nat, hasAlignment: bool)
    requires i <= |sam|
    ensures CheckFrom(sam, qscore, i, hasAlignment).Ok? <==>
      (forall j :: i <= j < |sam| ==> Passes(sam[j], qscore))
      && (hasAlignment || exists j :: i <= j < |sam| && CheckLine(sam[j], qscore) == Mapped)
    decreases |sam| - i
  {
    if i < |sam| {
      CheckFromPasses(sam, qscore, i + 1, hasAlignment || CheckLine(sam[i], qscore) == Mapped);
    }
  }

  /** sam_alignments passes exactly when no line fails and some line is mapped. */
  lemma SamAlignmentsPasses(sam: seq<seq<string>>, qscore: bool)
    ensures SamAlignmentsCheck(sam, qscore).Ok? <==>
      (forall j :: 0 <= j < |sam| ==> Passes(sam[j], qscore))
      && exists j :: 0 <= j < |sam| && CheckLine(sam[j], qscore) == Mapped
  {
    CheckFromPasses(sam, qscore, 0, false);
  }

  /** When a line fails, the loop raises the error of the first line that does. */
  lemma {:induction false} CheckFromFails(sam: seq<seq<string>>, qscore: bool, i: nat, hasAlignment: bool, f: nat)
    requires i <= f < |sam| && !Passes(sam[f], qscore)
    requires forall j :: i <= j < f ==> Passes(sam[j], qscore)
    ensures CheckFrom(sam, qscore, i, hasAlignment) == CheckLine(sam[f], qscore).raised
    decreases f - i
  {
    if i < f {
      CheckFromFails(sam, qscore, i + 1, hasAlignment || CheckLine(sam[i], qscore) == Mapped, f);
    }
  }

  /** A line for which alignment_to_dict reads FLAG and POS as numbers. */
  predicate NumeralFields(line: seq<string>)
  {
    |line| >= 4 && IsNumeral(line[1]) && IsNumeral(line[3])
  }

  /** SAM that passes sam_alignments with the QUAL check, and whose mapped lines have
      numeric FLAG and POS, is read by alignments_to_dict without an error, and every
      mapped line gives a record: there is at least one. */
  lemma ValidatedLinesGiveRecords(sam: seq<seq<string>>)
    requires SamAlignmentsCheck(sam, true).Ok?
    requires forall j :: 0 <= j < |sam| && CheckLine(sam[j], true) == Mapped ==> NumeralFields(sam[j])
    ensures LinesReadable(sam)
    ensures forall j :: 0 <= j < |sam| ==> (Kept(sam[j]) <==> CheckLine(sam[j], true) == Mapped)
    ensures |Dicts(sam)| >= 1
  {
    SamAlignmentsPasses(sam, true);
    forall j | 0 <= j < |sam| ensures LineReadable(sam[j]) && (Kept(sam[j]) <==> CheckLine(sam[j], true) == Mapped) {
      LineKept(sam[j]);
    }
    var j :| 0 <= j < |sam| && CheckLine(sam[j], true) == Mapped;
    DictsFromLines(sam, |sam|);
    assert Dict(sam[j]) in Dicts(sam);
  }

  /** A line that passes is read by alignments_to_dict, which keeps it exactly when it
      is mapped. */
  lemma LineKept(line: seq<string>)
    requires Passes(line, true)
    requires CheckLine(line, true) == Mapped ==> NumeralFields(line)
    ensures LineReadable(line)
    ensures Kept(line) <==> CheckLine(line, true) == Mapped
  {
    if |line| >= 11 {
      var n := LastLongCs(line, |line|);
      if HasLongCs(line) {
        var j :| 0 <= j < |line| && IsLongCs(line[j]);
        assert n.Some?;
      }
    }
  }
}
