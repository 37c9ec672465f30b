/** convert (src/midsv/converter.py): every alignment record gets the MIDSV cells of
    its cs tag and, when asked, the quality scores re-aligned to them. */
module Converter {
  import opened Strings
  import opened Tokenizer
  import opened Encoder
  import opened Qualities
  import opened Records

  // ---------------------------------------------------------------------------
  // convert
  // ---------------------------------------------------------------------------

  /** The tag and quality of a record are ones the conversion can take. */
  predicate Convertible(cstag: string, qual: string, qscore: bool)
  {
    WellPrefixed(cstag)
    && (qscore ==> Total(Split(Midsv(cstag), ',')) <= |qual|)
  }

  /** A record with its MIDSV (and QSCORE, when asked) computed from its tag and quality. */
  function Conversion(r: Rec, qscore: bool): (c: Rec)
    requires Convertible(r.cstag, r.qual, qscore)
  {
    var midsv := Midsv(r.cstag);
    r.(midsv := Split(midsv, ','),
       qscore := if qscore then Some(Split(Qscore(r.qual, midsv), ',')) else r.qscore)
  }

  /** With QSCORE asked for, every entry fits its MIDSV cell: -1 for a deletion or an
      intron base, one score per part for an insertion, and otherwise the score of the
      QUAL character the cells before it have not consumed. */
  lemma ConversionFits(r: Rec)
    requires Convertible(r.cstag, r.qual, true)
    ensures var c := Conversion(r, true);
      c.qscore.Some? && |c.qscore.value| == |c.midsv|
      && forall k :: 0 <= k < |c.midsv| ==> Fits(c.midsv[k], c.qscore.value[k], r.qual, Total(c.midsv[..k]))
  {
    QscoreFits(r.qual, Midsv(r.cstag));
  }

  /** Conversion changes nothing but MIDSV and QSCORE. */
  lemma ConversionKeeps(r: Rec, qscore: bool)
    requires Convertible(r.cstag, r.qual, qscore)
    ensures var c := Conversion(r, qscore);
      c.(midsv := r.midsv, qscore := r.qscore) == r
  {
  }

  /** With QSCORE asked for, every MIDSV cell gets exactly one QSCORE entry. */
  lemma ConversionAligned(r: Rec)
    requires Convertible(r.cstag, r.qual, true)
    ensures var c := Conversion(r, true);
      c.qscore.Some? && |c.qscore.value| == |c.midsv|
  {
    QscoreAligned(r.qual, Midsv(r.cstag));
  }

  /** The body of the loop of convert, for one record. */
  method ConvertOne(alignment: Alignment, qscore: bool)
    requires Convertible(alignment.cstag, alignment.qual, qscore)
    modifies alignment
    ensures alignment.Value() == Conversion(old(alignment.Value()), qscore)
  {
    var midsv := CstagToMidsv(alignment.cstag);
    alignment.midsv := Split(midsv, ',');
    if qscore {
      var q := QualToQscore(alignment.qual, midsv);
      alignment.qscore := Some(Split(q, ','));
    }
  }

  /** The contents after conversion of each of a list of contents. */
  function Conversions(rs: seq<Rec>, qscore: bool): (cs: seq<Rec>)
    requires forall k :: 0 <= k < |rs| ==> Convertible(rs[k].cstag, rs[k].qual, qscore)
    ensures |cs| == |rs|
  {
    if rs == [] then [] else [Conversion(rs[0], qscore)] + Conversions(rs[1..], qscore)
  }

  lemma {:induction false} ConversionsAt(rs: seq<Rec>, qscore: bool, k: nat)
    requires forall k :: 0 <= k < |rs| ==> Convertible(rs[k].cstag, rs[k].qual, qscore)
    requires k < |rs|
    ensures Conversions(rs, qscore)[k] == Conversion(rs[k], qscore)
  {
    if k > 0 {
      ConversionsAt(rs[1..], qscore, k - 1);
    }
  }

  /** One turn of the loop of convert: the record at n is converted. */
  method ConvertAt(records: seq<Alignment>, qscore: bool, n: nat, ghost start: seq<Rec>)
    requires Distinct(records) && n < |records| == |start|
    requires forall k :: 0 <= k < |start| ==> Convertible(start[k].cstag, start[k].qual, qscore)
    requires UpdatedUpTo(records, start, Conversions(start, qscore), n)
    modifies records[n]
    ensures UpdatedUpTo(records, start, Conversions(start, qscore), n + 1)
  {
    ConversionsAt(start, qscore, n);
    ConvertOne(records[n], qscore);
  }

  /** convert: every record gets its MIDSV cells and, when asked, its QSCORE entries. */
  method Convert(records: seq<Alignment>, qscore: bool)
    requires Distinct(records)
    requires forall k :: 0 <= k < |records| ==> Convertible(records[k].cstag, records[k].qual, qscore)
    modifies records
    ensures forall k :: 0 <= k < |old(Values(records))| ==> Convertible(old(Values(records))[k].cstag, old(Values(records))[k].qual, qscore)
    ensures Values(records) == Conversions(old(Values(records)), qscore)
  {
    ghost var start := Values(records);
    var n := 0;
    while n < |records|
      invariant n <= |records|
      invariant UpdatedUpTo(records, start, Conversions(start, qscore), n)
    {
      ConvertAt(records, qscore, n, start);
      n := n + 1;
    }
  }
}
