/** The Python string operations the three MIDSV stages are written with:
    str.split and str.join on one separator character, ASCII upper/lower,
    int() and str() on decimal numerals, str.replace(pat, ""), str.startswith,
    the `in` substring test, slicing with Python's bounds rules, and `s * n`. */
module Strings {

  datatype Option<+T> = None | Some(value: T)

  /** Index of the first occurrence of c in s, or |s| when there is none. */
  function IndexOf(s: string, c: char): (i: nat)
    ensures i <= |s|
    ensures forall k :: 0 <= k < i ==> s[k] != c
    ensures i < |s| ==> s[i] == c
  {
    if s == [] then 0 else if s[0] == c then 0 else 1 + IndexOf(s[1..], c)
  }

  /** Python's s.split(sep): always at least one piece, "" gives [""]. */
  function Split(s: string, sep: char): (parts: seq<string>)
    ensures |parts| >= 1
    decreases |s|
  {
    var i := IndexOf(s, sep);
    if i == |s| then [s] else [s[..i]] + Split(s[i + 1..], sep)
  }

  /** How often c occurs in s. */
  function Count(s: string, c: char): nat
  {
    if s == [] then 0 else (if s[0] == c then 1 else 0) + Count(s[1..], c)
  }

  lemma {:induction false} CountAppend(a: string, b: string, c: char)
    ensures Count(a + b, c) == Count(a, c) + Count(b, c)
    decreases |a|
  {
    if a != [] {
      assert (a + b)[1..] == a[1..] + b;
      CountAppend(a[1..], b, c);
    } else {
      assert a + b == b;
    }
  }

  lemma {:induction false} CountNone(s: string, c: char)
    requires c !in s
    ensures Count(s, c) == 0
    decreases |s|
  {
    if s != [] { CountNone(s[1..], c); }
  }

  lemma {:induction false} CountSome(s: string, c: char, k: nat)
    requires k < |s| && s[k] == c
    ensures Count(s, c) >= 1
    decreases k
  {
    if k > 0 { CountSome(s[1..], c, k - 1); }
  }

  /** A split has one piece more than the string has separators. */
  lemma {:induction false} SplitCount(s: string, sep: char)
    ensures |Split(s, sep)| == Count(s, sep) + 1
    decreases |s|
  {
    var i := IndexOf(s, sep);
    if i < |s| {
      var a, rest := s[..i], s[i + 1..];
      assert forall k :: 0 <= k < |a| ==> a[k] == s[k];
      Reassemble(s, i);
      SplitCons(a, sep, rest);
      SplitCount(rest, sep);
      CountAppend(a, [sep] + rest, sep);
      CountNone(a, sep);
      assert ([sep] + rest)[1..] == rest;
    } else {
      CountNone(s, sep);
    }
  }

  /** No piece of a split holds the separator. */
  lemma {:induction false} SplitAvoids(s: string, sep: char)
    ensures forall k :: 0 <= k < |Split(s, sep)| ==> sep !in Split(s, sep)[k]
    decreases |s|
  {
    var i := IndexOf(s, sep);
    if i < |s| {
      SplitAvoids(s[i + 1..], sep);
      assert sep !in s[..i];
    }
  }

  /** Python's sep.join(parts). */
  function Join(parts: seq<string>, sep: char): string
  {
    if |parts| == 0 then ""
    else if |parts| == 1 then parts[0]
    else parts[0] + [sep] + Join(parts[1..], sep)
  }

  lemma JoinCons(a: string, parts: seq<string>, sep: char)
    requires |parts| >= 1
    ensures Join([a] + parts, sep) == a + ([sep] + Join(parts, sep))
  {
    assert ([a] + parts)[1..] == parts;
  }

  /** A sequence is its prefix, one element, and its suffix. */
  lemma Reassemble<T>(s: seq<T>, n: nat)
    requires n < |s|
    ensures s[..n] + ([s[n]] + s[n + 1..]) == s
  {
  }

  /** Joining the pieces of a split gives back the string. */
  lemma {:induction false} JoinSplit(s: string, sep: char)
    ensures Join(Split(s, sep), sep) == s
    decreases |s|
  {
    var i := IndexOf(s, sep);
    if i < |s| {
      var a, rest := s[..i], s[i + 1..];
      assert forall k :: 0 <= k < |a| ==> a[k] == s[k];
      Reassemble(s, i);
      SplitCons(a, sep, rest);
      JoinSplit(rest, sep);
      JoinCons(a, Split(rest, sep), sep);
    }
  }

  /** Splitting at the first separator: the piece before it, then the pieces of the rest. */
  lemma SplitCons(a: string, sep: char, rest: string)
    requires sep !in a
    ensures Split(a + ([sep] + rest), sep) == [a] + Split(rest, sep)
  {
    var s := a + ([sep] + rest);
    assert s[|a|] == sep;
    assert forall k :: 0 <= k < |a| ==> s[k] == a[k];
    assert IndexOf(s, sep) == |a|;
    assert s[..|a|] == a;
    assert s[|a| + 1..] == rest;
  }

  /** Splitting a join of separator-free pieces gives back the pieces. */
  lemma {:induction false} SplitJoin(parts: seq<string>, sep: char)
    requires |parts| >= 1
    requires forall k :: 0 <= k < |parts| ==> sep !in parts[k]
    ensures Split(Join(parts, sep), sep) == parts
    decreases |parts|
  {
    if |parts| > 1 {
      var rest := parts[1..];
      assert forall k :: 0 <= k < |rest| ==> rest[k] == parts[k + 1];
      SplitJoin(rest, sep);
      JoinCons(parts[0], rest, sep);
      assert parts == [parts[0]] + rest;
      SplitCons(parts[0], sep, Join(rest, sep));
    }
  }

  /** Joining two non-empty lists is joining their joins. */
  lemma {:induction false} JoinAppend(a: seq<string>, b: seq<string>, sep: char)
    requires |a| >= 1 && |b| >= 1
    ensures Join(a + b, sep) == Join(a, sep) + [sep] + Join(b, sep)
    decreases |a|
  {
    if |a| > 1 {
      JoinAppend(a[1..], b, sep);
      assert (a + b)[1..] == a[1..] + b;
    } else {
      assert (a + b)[1..] == b;
    }
  }

  /** A character that is in no piece is in no join of the pieces, unless it is the separator. */
  lemma {:induction false} JoinAvoids(parts: seq<string>, sep: char, c: char)
    requires c != sep
    requires forall k :: 0 <= k < |parts| ==> c !in parts[k]
    ensures c !in Join(parts, sep)
    decreases |parts|
  {
    if |parts| > 1 {
      JoinAvoids(parts[1..], sep, c);
    }
  }

  /** Python's str.startswith. */
  predicate StartsWith(s: string, prefix: string)
  {
    |prefix| <= |s| && s[..|prefix|] == prefix
  }

  /** Python's `sub in s` for strings. */
  predicate Contains(s: string, sub: string)
    decreases |s|
  {
    StartsWith(s, sub) || (s != [] && Contains(s[1..], sub))
  }

  /** Python's s.replace(pat, ""): occurrences are removed left to right, without overlap. */
  function RemoveAll(s: string, pat: string): string
    requires |pat| >= 1
    decreases |s|
  {
    if |s| < |pat| then s
    else if s[..|pat|] == pat then RemoveAll(s[|pat|..], pat)
    else [s[0]] + RemoveAll(s[1..], pat)
  }

  /** Python's s.replace(c, d) for single characters. */
  function ReplaceChar(s: string, c: char, d: char): (r: string)
    ensures |r| == |s|
    decreases |s|
  {
    if s == [] then [] else [if s[0] == c then d else s[0]] + ReplaceChar(s[1..], c, d)
  }

  /** After replacing a character by another, none of it is left, and every other
      character stays where it was. */
  lemma {:induction false} ReplaceCharRemoves(s: string, c: char, d: char)
    requires c != d
    ensures Count(ReplaceChar(s, c, d), c) == 0
    ensures forall k :: 0 <= k < |s| && s[k] != c ==> ReplaceChar(s, c, d)[k] == s[k]
    decreases |s|
  {
    if s != [] {
      ReplaceCharRemoves(s[1..], c, d);
      var r := ReplaceChar(s, c, d);
      assert r[1..] == ReplaceChar(s[1..], c, d);
      forall k | 0 < k < |s| && s[k] != c ensures r[k] == s[k] {
        assert r[k] == r[1..][k - 1];
      }
    }
  }

  /** `[x] * n` in Python: n copies, none when n <= 0. */
  function Repeat<T>(x: T, n: int): (r: seq<T>)
    ensures |r| == if n <= 0 then 0 else n
    ensures forall k :: 0 <= k < |r| ==> r[k] == x
    decreases if n <= 0 then 0 else n
  {
    if n <= 0 then [] else [x] + Repeat(x, n - 1)
  }

  function Max(a: int, b: int): int { if a >= b then a else b }

  function Min(a: int, b: int): int { if a <= b then a else b }

  /** A slice bound as Python normalises it: negative counts from the end, then clamped. */
  function SliceBound(i: int, n: nat): (b: nat)
    ensures b <= n
  {
    var j := if i < 0 then n + i else i;
    if j < 0 then 0 else if j > n then n else j
  }

  /** Python's s[a:b]. */
  function PySlice<T>(s: seq<T>, a: int, b: int): seq<T>
  {
    var lo := SliceBound(a, |s|);
    var hi := SliceBound(b, |s|);
    if lo >= hi then [] else s[lo..hi]
  }

  // ASCII case mapping, which is what str.upper() and str.lower() do on
  // the characters a CS tag or a MIDSV cell can hold

  function UpperChar(c: char): char
  {
    if 'a' <= c <= 'z' then (c as int - 32) as char else c
  }

  function LowerChar(c: char): char
  {
    if 'A' <= c <= 'Z' then (c as int + 32) as char else c
  }

  function Upper(s: string): string
  {
    seq(|s|, i requires 0 <= i < |s| => UpperChar(s[i]))
  }

  function Lower(s: string): string
  {
    seq(|s|, i requires 0 <= i < |s| => LowerChar(s[i]))
  }

  function UpperAll(cells: seq<string>): seq<string>
  {
    seq(|cells|, i requires 0 <= i < |cells| => Upper(cells[i]))
  }

  function LowerAll(cells: seq<string>): seq<string>
  {
    seq(|cells|, i requires 0 <= i < |cells| => Lower(cells[i]))
  }

  /** Lower-casing the string lower-cases every cell: str.lower() keeps the commas. */
  lemma {:induction false} LowerJoin(cells: seq<string>)
    ensures Lower(Join(cells, ',')) == Join(LowerAll(cells), ',')
    decreases |cells|
  {
    if |cells| > 1 {
      LowerJoin(cells[1..]);
      assert LowerAll(cells)[1..] == LowerAll(cells[1..]);
      var rest := Join(cells[1..], ',');
      assert Lower(cells[0] + [','] + rest) == Lower(cells[0]) + [','] + Lower(rest);
    }
  }

  // Decimal numerals: int() on a digit string and str() on an integer

  predicate IsDigit(c: char) { '0' <= c <= '9' }

  predicate AllDigits(s: string) { forall k :: 0 <= k < |s| ==> IsDigit(s[k]) }

  /** What int() accepts in this model: one or more ASCII digits. */
  predicate IsNumeral(s: string) { |s| >= 1 && AllDigits(s) }

  function DigitChar(d: nat): char
    requires d < 10
  {
    ('0' as int + d) as char
  }

  function ParseNat(s: string): nat
    requires AllDigits(s)
    decreases |s|
  {
    if s == [] then 0 else 10 * ParseNat(s[..|s| - 1]) + (s[|s| - 1] as int - '0' as int)
  }

  /** str(n) for n >= 0: the shortest numeral, so without leading zeros. */
  function NatToString(n: nat): (s: string)
    ensures IsNumeral(s)
    ensures n > 0 ==> s[0] != '0'
    decreases n
  {
    if n < 10 then [DigitChar(n)] else NatToString(n / 10) + [DigitChar(n % 10)]
  }

  /** str(i) for any integer. */
  function IntToString(i: int): (s: string)
    ensures |s| >= 1
    ensures forall k :: 0 <= k < |s| ==> IsDigit(s[k]) || s[k] == '-'
  {
    if i < 0 then "-" + NatToString(-i) else NatToString(i)
  }

  /** int(str(n)) == n. */
  lemma {:induction false} ParseNatToString(n: nat)
    ensures ParseNat(NatToString(n)) == n
    decreases n
  {
    if n >= 10 {
      ParseNatToString(n / 10);
      var s := NatToString(n);
      assert s[..|s| - 1] == NatToString(n / 10);
    }
  }
}
