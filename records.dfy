/** One SAM alignment as the pipeline passes it between stages: a dictionary with the
    mandatory fields QNAME, FLAG, RNAME, POS, CIGAR, SEQ and QUAL (section 1.4 of the SAM
    format specification, SAMv1), the cs tag, and the MIDSV and QSCORE strings the
    conversion adds. The stages update these dictionaries in place, so a record is an
    object. MIDSV and QSCORE are held as their comma-separated cells. */
module Records {
  import opened Strings
  import opened Sorting

  /** The keys `select` may remove. */
  const SelectableKeys: set<string> := {"FLAG", "POS", "SEQ", "QUAL", "CIGAR", "CSTAG"}

  /** The contents of a record at one moment. */
  datatype Rec = Rec(
    qname: string, flag: int, rname: string, pos: int, cigar: string,
    sequence: string, qual: string, cstag: string,
    midsv: seq<string>, qscore: Option<seq<string>>, removed: set<string>)

  class Alignment {
    var qname: string
    var flag: int
    var rname: string
    var pos: int
    var cigar: string
    var sequence: string
    var qual: string
    var cstag: string
    /** MIDSV cells. */
    var midsv: seq<string>
    /** QSCORE cells, when the record has a QSCORE key. */
    var qscore: Option<seq<string>>
    /** Keys removed by `select`. */
    var removed: set<string>

    /** A record as alignments_to_dict builds it: no MIDSV or QSCORE yet. */
    constructor (qname: string, flag: int, rname: string, pos: int, cigar: string,
                 sequence: string, qual: string, cstag: string)
      ensures Value() == Rec(qname, flag, rname, pos, cigar, sequence, qual, cstag, [], None, {})
    {
      this.qname := qname;
      this.flag := flag;
      this.rname := rname;
      this.pos := pos;
      this.cigar := cigar;
      this.sequence := sequence;
      this.qual := qual;
      this.cstag := cstag;
      this.midsv := [];
      this.qscore := None;
      this.removed := {};
    }

    /** copy.deepcopy of a record: a new object with the same contents. */
    constructor Copy(other: Alignment)
      ensures Value() == other.Value()
    {
      qname := other.qname;
      flag := other.flag;
      rname := other.rname;
      pos := other.pos;
      cigar := other.cigar;
      sequence := other.sequence;
      qual := other.qual;
      cstag := other.cstag;
      midsv := other.midsv;
      qscore := other.qscore;
      removed := other.removed;
    }

    function Value(): Rec
      reads this
    {
      Rec(qname, flag, rname, pos, cigar, sequence, qual, cstag, midsv, qscore, removed)
    }
  }

  /** The QSCORE cells line up with the MIDSV cells, one per reference base. */
  predicate ScoresAligned(r: Rec)
  {
    r.qscore.Some? ==> |r.qscore.value| == |r.midsv|
  }

  /** No object occurs twice in the list. */
  predicate Distinct(records: seq<Alignment>)
  {
    forall i, j :: 0 <= i < j < |records| ==> records[i] != records[j]
  }

  /** The contents of every record of a list. */
  function Values(records: seq<Alignment>): (vs: seq<Rec>)
    reads records
    ensures |vs| == |records|
    ensures forall k :: 0 <= k < |records| ==> vs[k] == records[k].Value()
  {
    if records == [] then [] else [records[0].Value()] + Values(records[1..])
  }

  /** A loop that updates every record of a list in turn, before the record at n: the
      records before n hold their new contents target[k], the others their old ones. */
  predicate UpdatedUpTo(records: seq<Alignment>, start: seq<Rec>, target: seq<Rec>, n: nat)
    reads records
    requires |start| == |target| == |records| && n <= |records|
  {
    (forall k :: 0 <= k < n ==> records[k].Value() == target[k])
    && (forall k :: n <= k < |records| ==> records[k].Value() == start[k])
  }

  // ---------------------------------------------------------------------------
  // Sorting by [QNAME, POS] and grouping by QNAME, shared by merge and by
  // organize_alignments_to_dict
  // ---------------------------------------------------------------------------

  lemma ValuesAre(records: seq<Alignment>, vs: seq<Rec>)
    requires |vs| == |records|
    requires forall k :: 0 <= k < |records| ==> records[k].Value() == vs[k]
    ensures Values(records) == vs
  {
  }

  lemma ValuesPush(records: seq<Alignment>, m: Alignment)
    ensures Values(records + [m]) == Values(records) + [m.Value()]
  {
    ValuesAre(records + [m], Values(records) + [m.Value()]);
  }

  lemma DistinctPush(records: seq<Alignment>, m: Alignment)
    requires Distinct(records) && m !in records
    ensures Distinct(records + [m])
  {
  }

  lemma ValuesConcat(a: seq<Alignment>, b: seq<Alignment>)
    ensures Values(a + b) == Values(a) + Values(b)
  {
    ValuesAre(a + b, Values(a) + Values(b));
  }

  twostate lemma ValuesUnchanged(records: seq<Alignment>)
    requires forall k :: 0 <= k < |records| ==> unchanged(records[k])
    ensures Values(records) == old(Values(records))
  {
  }

  /** Records that are none of sorted[i..e] are not among them. */
  lemma SliceOutside(sorted: seq<Alignment>, i: nat, e: nat, others: seq<Alignment>)
    requires i <= e <= |sorted|
    requires forall a, k :: 0 <= a < |others| && i <= k < |sorted| ==> others[a] != sorted[k]
    ensures forall a :: 0 <= a < |others| ==> others[a] !in sorted[i..e]
  {
  }

  /** In a list without repeats, no record outside sorted[i..e] is among them. */
  lemma DistinctOutside(sorted: seq<Alignment>, i: nat, e: nat)
    requires Distinct(sorted) && i <= e <= |sorted|
    ensures forall k :: 0 <= k < |sorted| && !(i <= k < e) ==> sorted[k] !in sorted[i..e]
  {
    assert forall j :: 0 <= j < e - i ==> sorted[i..e][j] == sorted[i + j];
  }

  /** The sort key [QNAME, POS] of every record. */
  function NamePosKeys(rs: seq<Rec>): (keys: seq<Key>)
    ensures |keys| == |rs|
    ensures forall k :: 0 <= k < |rs| ==> keys[k] == (rs[k].qname, rs[k].pos)
  {
    seq(|rs|, k requires 0 <= k < |rs| => (rs[k].qname, rs[k].pos))
  }

  /** The records rearranged into the order of their sort keys, ties kept in their
      order: Python's stable sorted with a key, on the contents. */
  function Arranged(rs: seq<Rec>, keys: seq<Key>): (s: seq<Rec>)
    requires |keys| == |rs|
    ensures |s| == |rs|
  {
    OrderIsPermutation(keys);
    var order := Order(keys);
    seq(|rs|, i requires 0 <= i < |rs| => rs[order[i]])
  }

  /** The arranged records are the records rearranged by a permutation of their
      positions, in the order of their keys. */
  lemma ArrangedSorts(rs: seq<Rec>, keys: seq<Key>)
    requires |keys| == |rs|
    ensures var s, order := Arranged(rs, keys), Order(keys);
      && (forall i :: 0 <= i < |rs| ==> 0 <= order[i] < |rs| && s[i] == rs[order[i]])
      && (forall i, j :: 0 <= i < j < |rs| ==> order[i] != order[j])
      && (forall j :: 0 <= j < |rs| ==> j in order)
      && (forall i, j :: 0 <= i < j < |rs| ==> KeyLe(keys[order[i]], keys[order[j]]))
  {
    OrderIsPermutation(keys);
    forall j | 0 <= j < |rs| ensures j in Order(keys) {
      OrderOnto(keys, j);
    }
  }

  /** Rearranging keeps every record and adds none. */
  lemma ArrangedSame(rs: seq<Rec>, keys: seq<Key>)
    requires |keys| == |rs|
    ensures forall x :: x in Arranged(rs, keys) <==> x in rs
  {
    var s, order := Arranged(rs, keys), Order(keys);
    ArrangedSorts(rs, keys);
    forall x | x in rs ensures x in s {
      var j :| 0 <= j < |rs| && rs[j] == x;
      assert j in order;
      var i :| 0 <= i < |rs| && order[i] == j;
      assert s[i] == x;
    }
  }

  /** sorted(alignments, key=lambda x: [x["QNAME"], x["POS"]]), on the contents. */
  function ByNameAndPos(rs: seq<Rec>): (s: seq<Rec>)
    ensures |s| == |rs|
  {
    Arranged(rs, NamePosKeys(rs))
  }

  /** The sorted records are the records rearranged by a permutation of their positions,
      in the order of [QNAME, POS]. */
  lemma ByNameAndPosSorts(rs: seq<Rec>)
    ensures var s, order := ByNameAndPos(rs), Order(NamePosKeys(rs));
      && (forall i :: 0 <= i < |rs| ==> 0 <= order[i] < |rs| && s[i] == rs[order[i]])
      && (forall i, j :: 0 <= i < j < |rs| ==> order[i] != order[j])
      && (forall j :: 0 <= j < |rs| ==> j in order)
      && (forall i, j :: 0 <= i < j < |rs| ==> KeyLe((s[i].qname, s[i].pos), (s[j].qname, s[j].pos)))
  {
    ArrangedSorts(rs, NamePosKeys(rs));
  }

  /** The QNAMEs of the records. */
  function Qnames(rs: seq<Rec>): set<string>
  {
    set k | 0 <= k < |rs| :: rs[k].qname
  }

  /** Sorting keeps the QNAMEs. */
  lemma ArrangedQnames(rs: seq<Rec>, keys: seq<Key>)
    requires |keys| == |rs|
    ensures Qnames(Arranged(rs, keys)) == Qnames(rs)
  {
    ArrangedSame(rs, keys);
    var s := Arranged(rs, keys);
    forall q | q in Qnames(rs) ensures q in Qnames(s) {
      var a :| 0 <= a < |rs| && rs[a].qname == q;
      assert rs[a] in s;
    }
    forall q | q in Qnames(s) ensures q in Qnames(rs) {
      var a :| 0 <= a < |s| && s[a].qname == q;
      assert s[a] in rs;
    }
  }

  /** Sorting by [QNAME, POS] keeps the set of QNAMEs. */
  lemma ByNameAndPosQnames(rs: seq<Rec>)
    ensures Qnames(ByNameAndPos(rs)) == Qnames(rs)
  {
    ArrangedQnames(rs, NamePosKeys(rs));
  }

  /** The end of the run of records that share the QNAME of s[i], looked for from j on:
      itertools.groupby by QNAME. */
  function RunEnd(s: seq<Rec>, i: nat, j: nat): (e: nat)
    requires i < j <= |s|
    ensures j <= e <= |s|
    ensures forall k :: j <= k < e ==> s[k].qname == s[i].qname
    ensures e < |s| ==> s[e].qname != s[i].qname
    decreases |s| - j
  {
    if j == |s| || s[j].qname != s[i].qname then j else RunEnd(s, i, j + 1)
  }

  /** The QNAMEs of the records are in order. */
  predicate QnamesSorted(s: seq<Rec>)
  {
    forall a, b :: 0 <= a < b < |s| ==> StrLe(s[a].qname, s[b].qname)
  }

  /** Sorting by [QNAME, POS] puts the QNAMEs in order. */
  lemma SortedQnames(rs: seq<Rec>)
    ensures QnamesSorted(ByNameAndPos(rs))
  {
    var s := ByNameAndPos(rs);
    ByNameAndPosSorts(rs);
    forall a, b | 0 <= a < b < |s| ensures StrLe(s[a].qname, s[b].qname) {
      assert KeyLe((s[a].qname, s[a].pos), (s[b].qname, s[b].pos));
      StrLeRefl(s[a].qname);
    }
  }

  /** Python's stable sorted with a key: the same objects, in the order of their keys. */
  method SortBy(alignments: seq<Alignment>, keys: seq<Key>, ghost rs: seq<Rec>) returns (sorted: seq<Alignment>)
    requires Values(alignments) == rs && |keys| == |rs|
    ensures |sorted| == |alignments| && (Distinct(alignments) ==> Distinct(sorted))
    ensures forall k :: 0 <= k < |sorted| ==> sorted[k] in alignments
    ensures Values(sorted) == Arranged(rs, keys)
  {
    var order := Order(keys);
    OrderIsPermutation(keys);
    sorted := seq(|alignments|, i requires 0 <= i < |alignments| => alignments[order[i]]);
    PermutedMembers(alignments, order, sorted);
    if Distinct(alignments) {
      PermutedDistinct(alignments, order, sorted);
    }
    ArrangedSorts(rs, keys);
    ValuesAre(sorted, Arranged(rs, keys));
  }

  /** sorted(alignments, key=lambda x: [x["QNAME"], x["POS"]]). */
  method SortByNameAndPos(alignments: seq<Alignment>, ghost rs: seq<Rec>) returns (sorted: seq<Alignment>)
    requires Values(alignments) == rs
    ensures |sorted| == |alignments| && (Distinct(alignments) ==> Distinct(sorted))
    ensures forall k :: 0 <= k < |sorted| ==> sorted[k] in alignments
    ensures Values(sorted) == ByNameAndPos(rs)
  {
    sorted := SortBy(alignments, NamePosKeys(Values(alignments)), rs);
  }

  lemma PermutedMembers(alignments: seq<Alignment>, order: seq<int>, sorted: seq<Alignment>)
    requires |order| == |sorted| == |alignments|
    requires forall i :: 0 <= i < |order| ==> 0 <= order[i] < |alignments| && sorted[i] == alignments[order[i]]
    ensures forall k :: 0 <= k < |sorted| ==> sorted[k] in alignments
  {
  }

  /** A rearrangement of a list without repeats has none. */
  lemma PermutedDistinct(alignments: seq<Alignment>, order: seq<int>, sorted: seq<Alignment>)
    requires Distinct(alignments) && |order| == |sorted| == |alignments|
    requires forall i :: 0 <= i < |order| ==> 0 <= order[i] < |alignments| && sorted[i] == alignments[order[i]]
    requires forall i, j :: 0 <= i < j < |order| ==> order[i] != order[j]
    ensures Distinct(sorted)
  {
  }

  /** groupby: the end of the run of records sharing the QNAME of sorted[i]. */
  method FindRunEnd(sorted: seq<Alignment>, i: nat, ghost sv: seq<Rec>) returns (e: nat)
    requires i < |sorted| == |sv|
    requires forall k :: i <= k < |sorted| ==> sorted[k].Value() == sv[k]
    ensures e == RunEnd(sv, i, i + 1)
  {
    e := i + 1;
    while e < |sorted| && sorted[e].qname == sorted[i].qname
      invariant i < e <= |sorted|
      invariant RunEnd(sv, i, e) == RunEnd(sv, i, i + 1)
      decreases |sorted| - e
    {
      e := e + 1;
    }
  }
}
