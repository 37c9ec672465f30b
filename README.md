# midsv, modelled in Dafny

midsv converts SAM alignments that carry a long-form cs tag into MIDSV. MIDSV is a
comma-separated list with one cell per reference position: `=A` for a match, `*GA` for a
substitution, `-G` for a deletion, `+T|+T|=A` for an insertion anchored on the next
cell, and `=N` for a splice or an unknown base. When asked, it also produces QSCORE: the
Phred scores of the read, re-aligned cell by cell to the MIDSV.

The model runs the pipeline on values and objects:

- `Formatter` reads the SAM lines. It covers `extract_sqheaders`, `split_cigar`,
  `remove_softclips`, `_return_end_of_current_read`, `_padding_n_to_sequence`,
  `remove_resequence` with `is_resequence`, `alignments_to_dict` and
  `organize_alignments_to_dict`.
- `Tokenizer`, `Encoder`, `Qualities` and `Converter` cover `converter.py`. Tokenizer is
  `split_cstag`; Encoder is `cstag_to_midsv` with its three helpers; Qualities is
  `ascii_to_phred` and `qual_to_qscore`; Converter is `convert`.
- `Polisher` covers `polisher.py`: strand, inversion, microhomology, gap filling, merge of
  the segments of one read, pad, the reference-length filter, select and polish.
- `Validator` covers `keep_argument`, `sam_headers` and `sam_alignments`.
- `Strings`, `Sorting` and `Records` are the shared ground:
  - `Strings` holds Python's `split`/`join`, `replace`, case and `int`/`str` on numerals.
  - `Sorting` holds Python's stable `sorted` with a key, as an insertion sort on
    (key, index) pairs.
  - `Records` holds the alignment record. A SAM dictionary is the class
    `Records.Alignment`, because merge, pad, select and the formatter update dictionaries
    in place (and merge keeps aliases of them). `Rec` is the value of its fields.

Code that updates dictionaries or loops is modelled as methods with loop invariants. Each
method is proved against a function on `Rec` values, and the properties the program
promises are lemmas about those functions. The MIDSV and QSCORE strings of a record are
held as their cells (`Split(s, ',')`).

Where a Python function simply crashes on malformed input, the model states the input it
needs as a precondition. Examples: `int()` of a non-numeral, `qual[j]` past the end of
QUAL, `sqheaders[RNAME]` for an unknown reference, `pop` of a missing key. The validator,
whose purpose is raising errors, returns them instead. Its `Outcome` carries the
exception and the exact message.

Two behaviours the model takes from the code as it stands:

- The tests of `_padding_n_to_sequence` describe the padded SEQ as starting with POS
  `N`s. The code writes POS − 1 of them (`formatter.py:89`), and so does the model.
- `calculate_microhomology` (`polisher.py:36-46`) scans the overlap lengths upwards and
  stops for good at the first length whose cells agree but whose scores differ
  (`polisher.py:43-44`), even when a longer length would agree in both again. The
  microhomology is the longest agreeing length before that point, as
  `Polisher.MicrohomologyLongest` states.

Two places where the code evidently does not do what it means to are listed under
"## Findings". There the model logs the code as written and proves the difference on a
concrete input, and the rest of the model uses the corrected operation; the members
that inherit the correction are named under "## Left out".

## Model

| member | source | states |
|---|---|---|
| Tokenizer.SplitCstag | src/midsv/converter.py:10-30 | fails exactly when the tag does not start with "cs:Z:" or an operator (Python reads `cstag_splitted[-1]` of an empty list), and otherwise returns the tokens of the tag |
| Tokenizer.WellPrefixedIff | src/midsv/converter.py:23-29 | split_cstag succeeds exactly when the text before the first operator is empty or "cs:Z:" |
| Tokenizer.FoldShape | src/midsv/converter.py:23-29 | every token starts with one of `= * - + ~` and contains no other operator |
| Tokenizer.FoldConcat | src/midsv/converter.py:23-29 | the tokens, joined, are the tag's pieces with the "cs:Z:" prefix dropped, so no character is lost |
| Tokenizer.TokensConcat | src/midsv/converter.py:10-30 | for a tag "cs:Z:" + body, the tokens joined give back the body |
| Tokenizer.TokensOfConcat | src/midsv/converter.py:10-30 | round trip: splitting "cs:Z:" followed by the concatenation of a list of tokens gives back that list |
| Tokenizer.TokensAvoid | src/midsv/converter.py:23-29 | a character absent from the tag is absent from every token |
| Tokenizer.SplitCstagExample | src/midsv/converter.py:16-20 | the docstring example splits into `=ACGT, *ag, =C, -g, =T, +t, =ACGT` |
| Encoder.ProcessInsertion | src/midsv/converter.py:38-67 | a trailing insertion appends its `+x\|+y` item. Otherwise it appends the item anchored on the next cell (the whole substitution, `=N` before a splice, or the next cell's first base) and rewrites the next token to what is left of it, touching nothing else |
| Encoder.SpliceCellsOf | src/midsv/converter.py:70-80 | a splice `~l<n>r` gives n cells `=N` |
| Encoder.SpliceMatchOf | src/midsv/converter.py:77 | the splice pattern `[a-z]+[0-9]+[a-z]+` matches `l n r` and returns those three groups |
| Encoder.MatchCells | src/midsv/converter.py:83-91 | a token of k bases gives k cells, each its operator followed by one base |
| Encoder.EncodeToken | src/midsv/converter.py:116-129 | one pass of the loop: the cells emitted plus those of the rest of the tokens equal the cells of the tokens before the pass, and the tokens already passed are untouched |
| Encoder.CstagToMidsv | src/midsv/converter.py:94-131 | the loop over the tokens, with its in-place rewriting of the next token, computes the MIDSV of the tag (upper-case cells joined by commas) |
| Encoder.EncodeCount | src/midsv/converter.py:116-129 | the number of cells is the number of reference positions the tokens cover, plus one when the tag ends in an insertion |
| Encoder.MidsvLength | src/midsv/converter.py:94-131 | for a comma-free tag whose insertions are anchored, the MIDSV has one cell per reference position (at least one cell) |
| Encoder.MidsvCells | src/midsv/converter.py:131 | splitting the MIDSV at commas gives back the upper-cased cells (`[""]` when there are none) |
| Encoder.EncodeExample | src/midsv/converter.py:103-106 | the tokens of the docstring example encode to `=A, +t\|+t\|+t\|=C, =C, -a, -a, =T, *ag, =T, =T` |
| Encoder.CstagToMidsvExample | src/midsv/converter.py:103-106 | the docstring example `cs:Z:=A+ttt=CC-aa=T*ag=TT` gives `=A,+T\|+T\|+T\|=C,=C,-A,-A,=T,*AG,=T,=T` |
| Encoder.EncodeAvoids | src/midsv/converter.py:116-131 | no cell contains a comma when the tag has none, so the join is reversible |
| Qualities.PhredValue | src/midsv/converter.py:139-140 | ascii_to_phred gives the numeral of `ord(c) - 33` |
| Qualities.PhredClean | src/midsv/converter.py:139-140 | a Phred score contains neither `,` nor `\|` |
| Qualities.InsertionEntry | src/midsv/converter.py:160-171 | an insertion cell reads one score per inserted base and then its anchor, or `-1` for a deletion or `=N` anchor; the index moves past what was read. The anchor is read at `idx + n`, the corrected read of the first Findings row |
| Qualities.ScoreNext | src/midsv/converter.py:156-174 | one pass of the loop: the entry of this cell plus the scores of the rest are the scores from this cell on |
| Qualities.QualToQscore | src/midsv/converter.py:143-175 | the loop computes the QSCORE of the MIDSV: `-1` for a deletion or `=N`, the insertion entry, or the score of the next base. It uses the corrected anchor read of the first Findings row |
| Qualities.QscoreEntries | src/midsv/converter.py:175 | splitting the QSCORE at its commas gives back the entries, one per cell |
| Qualities.ScoresFit | src/midsv/converter.py:156-174 | the entries of a list of cells fit them one by one, each cell read from where the cells before it stopped |
| Qualities.FitsDrop | src/midsv/converter.py:156-174 | in a fitting list, the entries from k on fit the cells from k on, the QUAL string read from where the first k cells stopped |
| Qualities.FitsAt | src/midsv/converter.py:156-174 | in a fitting list, entry k fits cell k at the running index: the QUAL characters the cells before it consumed |
| Qualities.QscoreFits | src/midsv/converter.py:143-175 | there is one QSCORE entry per cell, and entry k fits cell k at the running index, i.e. the number of QUAL characters cells 0 to k - 1 consumed: `-1` for a gap; for an insertion of n bases, `\|`-parts that are the scores of the n QUAL characters from the running index on, then the score of the next character, or `-1` when the cell's last part is a gap; for any other cell, the score of the QUAL character at the running index |
| Qualities.QualToQscoreExample | src/midsv/converter.py:143-175 | QUAL `@0@` against `=A,+T\|-A,-A,=A` gives `31,15\|-1,-1,31` |
| Qualities.QscoreAligned | src/midsv/converter.py:143-175 | QSCORE has exactly as many cells as the MIDSV |
| Qualities.EntryShape | src/midsv/converter.py:157-173 | a gap's entry is `-1`; an insertion of n bases splits at `\|` into the Phred scores of the n QUAL characters from idx on, then the score of `qual[idx + n]`, or `-1` when the cell's last part is a gap; any other cell's entry is the Phred score of the base at idx |
| Qualities.EntryWindow | src/midsv/converter.py:160-171 | each entry depends only on the QUAL characters in its own window `[idx, idx + need)` |
| Qualities.PipedScoresCount | src/midsv/converter.py:163-164 | the scores of n inserted bases hold exactly n `\|` and no comma |
| Qualities.BareAsWritten | src/midsv/converter.py:163-169 | as written, a bare insertion `+T` is scored from `qual[j + 1]` with j as an earlier insertion cell left it, and fails when j is unbound or past QUAL |
| Qualities.QscoreAsWrittenAgrees | src/midsv/converter.py:143-175 | when no cell is a bare insertion, qual_to_qscore as written returns the model's QSCORE when QUAL covers the cells and raises exactly when it does not |
| Qualities.QscoreAsWrittenCounterexample | src/midsv/converter.py:161-169 | on `=A,+T` with QUAL `@0`, qual_to_qscore as written raises (unbound j) where the corrected model gives `31,15` |
| Qualities.StaleAnchorCounterexample | src/midsv/converter.py:161-169 | on `+G\|=A,+T` with QUAL `@0!`, the code as written scores the second cell from `qual[1]`, already consumed, giving `15` where the corrected model gives `0` |
| Converter.ConvertOne | src/midsv/converter.py:184-187 | one record gets MIDSV from its tag and, when asked, QSCORE from its QUAL, with the corrected anchor read of the first Findings row |
| Converter.Convert | src/midsv/converter.py:183-188 | every record of the list becomes its conversion, in place, and nothing else changes; QSCORE is the corrected one of the first Findings row |
| Converter.ConversionFits | src/midsv/converter.py:183-188 | with qscore, a converted record has one QSCORE entry per MIDSV cell, and entry k fits cell k, QUAL read from where the cells before it stopped: `-1` for a gap; for an insertion of n bases, the scores of the next n QUAL characters, then the score of the one after them, or `-1` when the last part is a gap; otherwise the score of the next unconsumed QUAL character |
| Converter.ConversionKeeps | src/midsv/converter.py:185-187 | conversion changes only MIDSV and QSCORE |
| Converter.ConversionAligned | src/midsv/converter.py:183-188 | with qscore, every converted record has as many QSCORE cells as MIDSV cells |
| Polisher.ForwardStrandBit | src/midsv/polisher.py:7-18 | a read is on the forward strand exactly when bit 4 (value 16) of FLAG is clear |
| Polisher.ForwardStrandFlip | src/midsv/polisher.py:7-18 | adding 16 to FLAG flips the strand; adding 32 keeps it |
| Polisher.ProcessInversion | src/midsv/polisher.py:21-25 | the record becomes its inversion-marked form and nothing else changes |
| Polisher.InversionMarks | src/midsv/polisher.py:21-25 | only MIDSV changes, keeping its length and its upper-case form. It is unchanged when the strand matches the first segment's, and lower-case when it does not |
| Polisher.CalculateMicrohomology | src/midsv/polisher.py:28-46 | the loop computes the microhomology of the two records |
| Polisher.MicrohomologyLongest | src/midsv/polisher.py:36-46 | h is the longest overlap (tail of the previous MIDSV equal to the head of the current one, scores equal when present) before the first length whose cells match but whose scores differ |
| Polisher.MicrohomologyWithoutScores | src/midsv/polisher.py:36-46 | without scores, h is the longest length at which the previous MIDSV's tail equals the current one's head, and no longer length up to the shorter list matches |
| Polisher.FirstBlocked | src/midsv/polisher.py:38-44 | the first length whose cells match and whose scores differ stops the scan, and no earlier length does |
| Polisher.RemoveMicrohomology | src/midsv/polisher.py:49-58 | the record becomes its trimmed form: its first h cells (and scores) dropped, POS advanced by h |
| Polisher.TrimmedKeepsEnd | src/midsv/polisher.py:49-58 | the dropped cells and the rest make up the old MIDSV; the reference end is unchanged; nothing else changes; h = 0 changes nothing |
| Polisher.FillGap | src/midsv/polisher.py:61-65 | the template becomes its filled form |
| Polisher.FilledShape | src/midsv/polisher.py:61-65 | the MIDSV gains max(0, gap) cells `=N` after the old ones (and the scores `-1`); nothing else changes; a gap of 0 or less changes nothing; two fills add up; scores stay aligned |
| Polisher.MergeRead | src/midsv/polisher.py:82-106 | one read's segments become the merged read: the lone record itself when there is one, otherwise a fresh template holding the merged record |
| Polisher.MergedReadKeeps | src/midsv/polisher.py:87-106 | the merged read has the first segment's fields apart from MIDSV and QSCORE; a lone segment is unchanged |
| Polisher.AssemblePlaces | src/midsv/polisher.py:90-104 | the merged MIDSV lays each segment's cells out in order, with the gap of `=N` between consecutive segments placed between them |
| Polisher.AttachCells | src/midsv/polisher.py:97-104 | one step puts the gap and then the current cells after the template's cells, and moves the template's end by the gap and the current length |
| Polisher.MergedReadAligned | src/midsv/polisher.py:87-106 | the merged read's QSCORE, when present, has as many cells as its MIDSV |
| Polisher.Merge | src/midsv/polisher.py:68-108 | merge returns distinct records whose values are the merge of the input values: sorted by QNAME and POS, grouped, one merged record per QNAME |
| Polisher.MergedQnames | src/midsv/polisher.py:77-108 | the merged records have strictly ascending, hence distinct, QNAMEs, exactly the input's QNAMEs |
| Polisher.MergedAligned | src/midsv/polisher.py:68-108 | every merged record keeps QSCORE and MIDSV of equal length |
| Polisher.PadOne | src/midsv/polisher.py:122-133 | one record becomes its padded form |
| Polisher.PaddedShape | src/midsv/polisher.py:111-135 | the MIDSV is POS − 1 `=N` cells, then the old cells, then `=N` up to the reference length. It reaches the reference length exactly when the read lies inside the reference. Nothing else changes and the scores stay aligned |
| Polisher.Pad | src/midsv/polisher.py:111-135 | every record of the list is padded in place against its reference's length |
| Polisher.RemoveDifferentLength | src/midsv/polisher.py:138-156 | returns, in their order, exactly the input records whose MIDSV has the length of their reference |
| Polisher.KeepLengthMembers | src/midsv/polisher.py:150-156 | a record is kept exactly when it is in the input and its MIDSV has its reference's length |
| Polisher.SelectOne | src/midsv/polisher.py:171-174 | one record loses the selectable keys not kept |
| Polisher.Select | src/midsv/polisher.py:159-175 | every record of the list loses the selectable keys not kept, in place |
| Polisher.SelectedFields | src/midsv/polisher.py:159-175 | select removes exactly the keys not kept, so a full record keeps QNAME, RNAME, MIDSV, QSCORE when scored, and the kept keys |
| Polisher.Polish | src/midsv/polisher.py:183-198 | the result is merge, then pad, then the length filter, then select, of the input |
| Polisher.PolishedOrder | src/midsv/polisher.py:183-198 | the polished records have strictly ascending QNAMEs, all from the input |
| Polisher.PolishedLengths | src/midsv/polisher.py:183-198 | every polished MIDSV has its reference's length; the polished records are exactly the selected padded merged reads of that length |
| Polisher.PolishedFields | src/midsv/polisher.py:183-198 | every polished record has QNAME, RNAME, MIDSV, QSCORE when scored, and the kept keys |
| Polisher.PolishedAligned | src/midsv/polisher.py:183-198 | every polished record's QSCORE has as many cells as its MIDSV |
| Formatter.ExtractSqheaders | src/midsv/formatter.py:12-28 | the loop computes the map from SN to LN over the @SQ lines |
| Formatter.SnLnFieldsExact | src/midsv/formatter.py:24 | the SN/LN fields are exactly the fields of the line that contain "SN:" or "LN:" |
| Formatter.SqHeadersKeys | src/midsv/formatter.py:21-28 | a name is a key exactly when some @SQ line names it |
| Formatter.SqHeadersLast | src/midsv/formatter.py:23-27 | a name's length is the one on its last @SQ line |
| Formatter.SplitCigarShape | src/midsv/formatter.py:36-39 | every piece is digits and one operation letter, and a CIGAR ending in an operation is the concatenation of its pieces |
| Formatter.SplitCigarExample | src/midsv/formatter.py:36-39 | "2M1I1D1M" splits into `2M, 1I, 1D, 1M` |
| Formatter.ReturnEnd | src/midsv/formatter.py:71-79 | the loop computes POS plus the M/D/N counts minus one |
| Formatter.SpanConcat | src/midsv/formatter.py:76-78 | the reference span of two CIGAR parts is the sum of their spans |
| Formatter.SpanIgnores | src/midsv/formatter.py:76-78 | pieces that are not M, D or N add nothing to the span |
| Formatter.Unify | src/midsv/formatter.py:88-115 | the loop's pieces, joined, are POS − 1 `N`s followed by the sequence projected on the reference |
| Formatter.PadSequence | src/midsv/formatter.py:82-117 | SEQ becomes the padded sequence and nothing else changes |
| Formatter.PaddedSeq | src/midsv/formatter.py:82-117 | the padded SEQ starts with POS − 1 `N`s |
| Formatter.ProjectedLength | src/midsv/formatter.py:92-114 | when SEQ is long enough for the M and I pieces, the projection is as long as the reference span |
| Formatter.PaddedReachesEnd | src/midsv/formatter.py:71-117 | the padded SEQ ends exactly at the read's reference end |
| Formatter.RemoveSoftclip | src/midsv/formatter.py:52-67 | SEQ and QUAL lose the clipped bases and nothing else changes |
| Formatter.RemoveSoftclips | src/midsv/formatter.py:42-68 | every record of the list is unclipped in place and the same list is returned |
| Formatter.UnclippedBases | src/midsv/formatter.py:57-66 | SEQ and QUAL are cut to `[n : len − m]` for a leading clip of n and a trailing clip of m |
| Formatter.UnclippedPlain | src/midsv/formatter.py:54-56 | a CIGAR without S leaves the record unchanged |
| Formatter.Unclipped | src/midsv/formatter.py:52-67 | unclipping changes only SEQ and QUAL |
| Formatter.ResequenceCheck | src/midsv/formatter.py:137-154 | the method computes the corrected resequence check of the second Findings row (`IsResequence`), not is_resequence as written |
| Formatter.ResequenceMeaning | src/midsv/formatter.py:137-154 | a read is a resequence exactly when the previous read contains it, or when at some reference position of the overlap both have a base other than N and the bases differ |
| Formatter.DisagreeAt | src/midsv/formatter.py:150-152 | the corrected zip loop of the second Findings row finds a difference exactly when some index holds two different bases, neither of them N; the loop as written tests against `"=N"` and so flags N too |
| Formatter.ResequenceAsWrittenCounterexample | src/midsv/formatter.py:147-152 | as written, the reads at POS 1 "4M" ACGT and POS 3 "4M" GTAA count as a resequence: they agree at positions 3-4, but the slices are shifted and the `=N` test never excludes an N |
| Formatter.AsWrittenDiffers | src/midsv/formatter.py:147-152 | the as-written check flags that agreeing pair |
| Formatter.IntendedAgrees | src/midsv/formatter.py:137-154 | the corrected check does not flag the agreeing pair |
| Formatter.LongestUpTo | src/midsv/formatter.py:164 | max by SEQ length picks the first of the longest records |
| Formatter.RetainedForm | src/midsv/formatter.py:163-175 | a group's retained records are the whole group when no read is a resequence (by the corrected check) of the one before it, and otherwise the group's longest record alone |
| Formatter.RetainGroup | src/midsv/formatter.py:163-175 | the loop over a group computes the retained records, by the corrected check, all taken from the group |
| Formatter.ProcessGroup | src/midsv/formatter.py:161-177 | a group is padded in place, sorted by POS and reduced to its retained records by the corrected check |
| Formatter.GroupResultMembers | src/midsv/formatter.py:161-177 | a group yields between one record and its size, each a padded record of the group |
| Formatter.RemoveResequence | src/midsv/formatter.py:120-179 | the loop over the QNAME groups returns the records of the resequence filter of the input (by the corrected check), all of them input records |
| Formatter.ResequencedKeeps | src/midsv/formatter.py:120-179 | the filter keeps no more records than it got, each a padded input record, and keeps every QNAME |
| Formatter.LastLongCs | src/midsv/formatter.py:203-206 | the index found is that of a long cs tag and no later field is one |
| Formatter.FindCsTag | src/midsv/formatter.py:203-208 | the loop finds the last long cs tag of the line |
| Formatter.DictOf | src/midsv/formatter.py:197-220 | a line gives a fresh record exactly when it is kept (not a header, mapped, with SEQ and a long cs tag) |
| Formatter.DictClean | src/midsv/formatter.py:210-219 | the record's QNAME has the line's commas replaced by underscores and no other change; RNAME, SEQ and the cs tag come from the line; MIDSV and QSCORE are not yet set |
| Formatter.AlignmentsToDict | src/midsv/formatter.py:187-221 | the loop returns distinct fresh records: the records of the kept lines, in order |
| Formatter.DictsFromLines | src/midsv/formatter.py:196-221 | the records are exactly those of the kept lines, at most one per line |
| Formatter.OrganizeAlignmentsToDict | src/midsv/formatter.py:224-237 | returns fresh records equal to the records of the lines, unclipped, filtered for resequences by the corrected check, and sorted by QNAME and POS |
| Formatter.OrganizedFromLines | src/midsv/formatter.py:224-237 | every organized record is the padded, unclipped record of a kept line, and there are at most as many as lines |
| Formatter.OrganizedQnames | src/midsv/formatter.py:224-237 | the organized QNAMEs are exactly those of the kept lines, commas replaced |
| Formatter.OrganizedClean | src/midsv/formatter.py:224-237 | the result is ordered by (QNAME, POS); every QNAME is comma-free and every cs tag long |
| Validator.KeepArgumentMeaning | src/midsv/validator.py:14-25 | keep_argument accepts exactly when every key is selectable and then returns the keys as a list; otherwise it raises ValueError |
| Validator.SamHeadersMeaning | src/midsv/validator.py:33-42 | sam_headers passes exactly when some line has an "@SQ" field, and otherwise raises ValueError |
| Validator.FirstCsTag | src/midsv/validator.py:66-72 | the loop finds the first long cs tag of a line, when there is one |
| Validator.CheckOne | src/midsv/validator.py:53-72 | one line is a header, unmapped, mapped, or raises the error of its first failed test |
| Validator.SamAlignments | src/midsv/validator.py:45-75 | the loop computes the outcome of sam_alignments |
| Validator.SamAlignmentsPasses | src/midsv/validator.py:45-75 | sam_alignments passes exactly when every line passes and some line is mapped |
| Validator.CheckFromFails | src/midsv/validator.py:52-72 | the first line that fails decides the error raised |
| Validator.ValidatedLinesGiveRecords | src/midsv/validator.py:45-75 | lines that pass with qscore (and have numeral FLAG and POS) can be read by alignments_to_dict, which keeps exactly the mapped ones, at least one |
| Sorting.SortPerm | src/midsv/polisher.py:77 | the sort is a permutation of its input |
| Sorting.SortSorted | src/midsv/polisher.py:77 | the sort's output is ordered by key |
| Sorting.SortStable | src/midsv/formatter.py:156 | the sort is stable: the entries with one key stay in their input order |
| Sorting.OrderIsPermutation | src/midsv/formatter.py:161 | the order of a keyed sort is a permutation of the indices, ordered by key |
| Records.ByNameAndPosSorts | src/midsv/polisher.py:77 | sorting by (QNAME, POS) permutes the records and orders them by that key |
| Records.ByNameAndPosQnames | src/midsv/polisher.py:77 | sorting keeps the set of QNAMEs |
| Records.SortedQnames | src/midsv/polisher.py:77-78 | after the sort, records with one QNAME are adjacent, as groupby needs |
| Records.SortBy | src/midsv/formatter.py:156 | sorting a list of records by a key returns the same records, arranged by the key |
| Records.FindRunEnd | src/midsv/polisher.py:78 | the loop finds the end of the run of records with the QNAME of record i |
| Strings.JoinSplit | src/midsv/polisher.py:52 | joining the parts of a split gives back the string |
| Strings.SplitJoin | src/midsv/polisher.py:102 | splitting a join of comma-free parts gives back the parts |
| Strings.ReplaceCharRemoves | src/midsv/formatter.py:211 | `replace(",", "_")` leaves no comma and changes nothing else |
| Strings.ParseNatToString | src/midsv/converter.py:63 | `int(str(n)) == n` |

## Left out

- I/O is left out: `io.read_sam`, `validate_sam` (it checks that the file exists, then
  runs the two validators on the lines read) and the command-line entry point. The
  model starts from the SAM lines as lists of fields.
- Python exceptions on malformed input are preconditions, not modelled errors, outside
  the validator. These cover `int()` of a non-numeral, QUAL shorter than the MIDSV needs,
  an unknown RNAME in `sqheaders`, and `pop` of a key already removed. The formatter's
  preconditions are `ReadableHeaders`, `LinesReadable`, `OrganizeReadable`,
  `ClipsReadable` and `PaddingReadable`.
- `int()` accepts only ASCII digits here: no sign, spaces or underscores.
- Polisher.Merge and Polisher.Polish require distinct record objects, and segments of one
  read that agree on whether they carry QSCORE. In Python, a read whose later segment
  lacks QSCORE raises KeyError.
- Polisher.MergeRead states the merged record, but not the state in which it leaves the
  later segments' dictionaries. Polisher.MergeSegments states those.
- Polisher.Merge states the records it returns, but not the state in which it leaves the
  input records it does not return. Those are the later segments of a multi-segment read.
  polish does not read them after merge.
- Polisher.Polish states the records it returns, but not the state of the input records
  that merge folded away, as for Polisher.Merge.
- Formatter.RemoveResequence and Formatter.OrganizeAlignmentsToDict do not state that
  their result objects are distinct from one another.
- Formatter.RemoveResequence reorders a new list. Python's `alignments.sort` also
  reorders the caller's list in place; that side effect is not modelled.
- Validator.KeepArgument models None as an empty list. Python returns `set()`; both are
  empty and select treats them alike.
- Encoder.CstagToMidsv: the second docstring example (`cs:Z:=A~ta10cg=T`) is not
  proved as a literal; Encoder.SpliceCellsOf states the splice rule it shows.
- Qualities.InsertionEntry scores a bare insertion (`+T`, the cell of a one-base
  insertion ending the tag) from `qual[idx]`, the corrected read of the first Findings
  row. The code reads `qual[j + 1]` from an earlier cell's loop variable or raises
  UnboundLocalError. Qualities.QscoreAsWritten models the code as written.
- Qualities.QualToQscore computes that corrected QSCORE. Qualities.QscoreAsWrittenAgrees
  shows that it is the code's own result whenever no cell is a bare insertion.
- Qualities.ScoreNext is one pass of that corrected loop.
- Qualities.QscoreEntries: stated of the corrected QSCORE.
- Qualities.ScoresFit: stated of the corrected QSCORE.
- Qualities.QscoreFits: stated of the corrected QSCORE.
- Qualities.QscoreAligned: stated of the corrected QSCORE.
- Converter.ConvertOne uses that corrected QSCORE. On a tag ending in a one-base
  insertion, convert as written raises or scores the inserted base from a wrong
  character.
- Converter.Convert uses the corrected QSCORE, as Converter.ConvertOne does.
- Converter.ConversionAligned: stated of the corrected QSCORE.
- Converter.ConversionFits: stated of the corrected QSCORE.
- Formatter.ResequenceCheck computes the corrected is_resequence of the second Findings
  row, not the code's shifted slices and `"=N"` test. Formatter.IsResequenceAsWritten
  models the code as written.
- Formatter.DisagreeAt is the corrected comparison inside Formatter.ResequenceCheck.
- Formatter.RetainedForm reduces a group by that corrected check. On the reads at POS 1
  "4M" ACGT and POS 3 "4M" GTAA the model keeps both; the code keeps only the longest.
- Formatter.RetainGroup is the loop behind Formatter.RetainedForm, with the same
  corrected check.
- Formatter.ProcessGroup pads, sorts and reduces a group by the same corrected check.
- Formatter.RemoveResequence filters with that corrected check, and differs from the
  code on the same inputs.
- Formatter.OrganizeAlignmentsToDict filters with that corrected check too, through
  Formatter.RemoveResequence.
- Encoder.MidsvLength assumes that every insertion in the tag is followed by a
  reference-consuming token, or ends the tag (`Anchored`).
- Strings are sequences of characters; `upper`/`lower` are modelled on ASCII letters
  only.

## Findings

| source | as written | input that shows it | evidently intended | confidence | as-written member | corrected member |
|---|---|---|---|---|---|---|
| src/midsv/converter.py:163-169 | the anchor score of an insertion cell is read at `qual[j + 1]`, j being the variable of the loop over the inserted bases | a cs tag ending in a one-base insertion, e.g. `cs:Z:=A+t`, gives the cell `+T`: the loop runs zero times, so j is unbound (UnboundLocalError) or stale from an earlier insertion cell | read the score at `idx + num_insertion`, the position right after the bases the loop read | medium; not executed | Qualities.QscoreAsWrittenCounterexample, Qualities.StaleAnchorCounterexample | Qualities.QscoreAsWrittenAgrees, Qualities.EntryWindow |
| src/midsv/formatter.py:147-152 | the overlap is cut from the padded SEQ at `start_overlap - POS`, though that SEQ already starts at reference position 1; and the bases are compared with `"=N"`, which a single character never equals | reads at POS 1 "4M" ACGT and POS 3 "4M" GTAA agree at positions 3-4, yet is_resequence compares G with N and calls the second a resequence | compare the bases at the same reference positions of the overlap, ignoring the N padding | medium; not executed | Formatter.ResequenceAsWrittenCounterexample | Formatter.ResequenceMeaning, Formatter.IntendedAgrees |
