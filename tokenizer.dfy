/** split_cstag (src/midsv/converter.py): a minimap2 long-form `cs:Z:` tag is cut at
    the operation markers `= * - + ~` with re.split and a capturing group, and the pieces
    are folded left to right into tokens: a piece starting with a marker opens a token,
    any other piece is appended to the open token, and empty pieces and the "cs:Z:"
    prefix are skipped. */
module Tokenizer {
  import opened Strings

  /** The operation markers the tag is split on. */
  predicate IsMarker(c: char)
  {
    c == '=' || c == '*' || c == '-' || c == '+' || c == '~'
  }

  predicate MarkerFree(s: string)
  {
    forall k :: 0 <= k < |s| ==> !IsMarker(s[k])
  }

  /** Length of the longest marker-free prefix of s. */
  function Run(s: string): (n: nat)
    ensures n <= |s|
  {
    if s == [] || IsMarker(s[0]) then 0 else 1 + Run(s[1..])
  }

  /** Run stops at the first marker. */
  lemma {:induction false} RunStops(s: string)
    ensures MarkerFree(s[..Run(s)])
    ensures Run(s) < |s| ==> IsMarker(s[Run(s)])
  {
    if s != [] && !IsMarker(s[0]) {
      RunStops(s[1..]);
      assert s[..Run(s)] == [s[0]] + s[1..][..Run(s[1..])];
    }
  }

  /** A marker-free text followed by the end or by a marker is one run. */
  lemma {:induction false} RunGlue(p: string, r: string)
    requires MarkerFree(p)
    requires r == [] || IsMarker(r[0])
    ensures Run(p + r) == |p|
    decreases |p|
  {
    if p == [] {
      assert p + r == r;
    } else {
      assert (p + r)[1..] == p[1..] + r;
      assert MarkerFree(p[1..]) by {
        forall k | 0 <= k < |p[1..]| ensures !IsMarker(p[1..][k]) { assert p[1..][k] == p[k + 1]; }
      }
      RunGlue(p[1..], r);
    }
  }

  /** re.split(r"(=|\*|\-|\+|\~)", s): the texts between markers, each marker a piece of
      its own between them, so always an odd number of pieces. */
  function Pieces(s: string): (ps: seq<string>)
    ensures |ps| >= 1
    decreases |s|
  {
    var n := Run(s);
    if n == |s| then [s] else [s[..n], [s[n]]] + Pieces(s[n + 1..])
  }

  /** A tag that starts at a marker has an empty first piece. */
  lemma FirstPieceEmpty(r: string)
    requires r == [] || IsMarker(r[0])
    ensures Pieces(r)[0] == ""
  {
    assert Run(r) == 0;
    if r != [] {
      assert Pieces(r)[0] == r[..0];
    }
  }

  lemma PiecesAt(s: string, n: nat)
    requires n < |s| && Run(s) == n
    ensures Pieces(s) == [s[..n], [s[n]]] + Pieces(s[n + 1..])
  {
  }

  /** A marker-free text glued before a tag that starts at a marker extends its first piece. */
  lemma PiecesGlue(p: string, r: string)
    requires MarkerFree(p)
    requires r == [] || IsMarker(r[0])
    ensures Pieces(p + r) == [p] + Pieces(r)[1..]
  {
    var s := p + r;
    RunGlue(p, r);
    if r == [] {
      assert s == p;
    } else {
      var tail := Pieces(r[1..]);
      assert Pieces(s) == [p, [r[0]]] + tail by {
        PiecesAt(s, |p|);
        assert s[..|p|] == p;
        assert s[|p|] == r[0];
        assert s[|p| + 1..] == r[1..];
      }
      assert Pieces(r)[1..] == [[r[0]]] + tail by {
        PiecesAt(r, 0);
      }
      assert [p, [r[0]]] + tail == [p] + ([[r[0]]] + tail);
    }
  }

  /** Every piece is a single marker or marker-free text. */
  predicate PieceShaped(p: string)
  {
    (|p| == 1 && IsMarker(p[0])) || MarkerFree(p)
  }

  lemma {:induction false} PiecesShape(s: string)
    ensures forall k :: 0 <= k < |Pieces(s)| ==> PieceShaped(Pieces(s)[k])
    decreases |s|
  {
    var n := Run(s);
    RunStops(s);
    if n < |s| {
      PiecesShape(s[n + 1..]);
    }
  }

  /** One step of the loop over the pieces; None once split_cstag has raised IndexError
      by extending a token when there is none. */
  function Step(acc: Option<seq<string>>, cs: string): (r: Option<seq<string>>)
  {
    match acc
    case None => None
    case Some(toks) =>
      if cs == "" || cs == "cs:Z:" then acc
      else if IsMarker(cs[0]) then Some(toks + [cs])
      else if toks == [] then None
      else Some(toks[|toks| - 1 := toks[|toks| - 1] + cs])
  }

  /** The loop over the pieces, from the tokens collected so far. */
  function Fold(acc: Option<seq<string>>, ps: seq<string>): Option<seq<string>>
    decreases |ps|
  {
    if ps == [] then acc else Fold(Step(acc, ps[0]), ps[1..])
  }

  /** split_cstag raises no IndexError on the tag. */
  predicate WellPrefixed(cstag: string)
  {
    Fold(Some([]), Pieces(cstag)).Some?
  }

  /** What split_cstag returns. */
  function Tokens(cstag: string): (toks: seq<string>)
    requires WellPrefixed(cstag)
    ensures AllTokens(toks)
  {
    PiecesShape(cstag);
    FoldShape([], Pieces(cstag));
    Fold(Some([]), Pieces(cstag)).value
  }

  /** split_cstag: the pieces of re.split, each opening a token or extending the last one. */
  method SplitCstag(cstag: string) returns (r: Option<seq<string>>)
    ensures r.Some? <==> WellPrefixed(cstag)
    ensures r.Some? ==> r.value == Tokens(cstag)
  {
    var pieces := Pieces(cstag);
    var toks: seq<string> := [];
    var i := 0;
    while i < |pieces|
      invariant 0 <= i <= |pieces|
      invariant Fold(Some(toks), pieces[i..]) == Fold(Some([]), pieces)
    {
      var cs := pieces[i];
      assert pieces[i..] == [cs] + pieces[i + 1..];
      i := i + 1;
      if cs == "" || cs == "cs:Z:" {
        continue;
      }
      if IsMarker(cs[0]) {
        toks := toks + [cs];
      } else if toks == [] {
        FoldNone(pieces[i..]);
        return None;
      } else {
        toks := toks[|toks| - 1 := toks[|toks| - 1] + cs];
      }
    }
    return Some(toks);
  }

  lemma {:induction false} FoldNone(ps: seq<string>)
    ensures Fold(None, ps) == None
    decreases |ps|
  {
    if ps != [] {
      FoldNone(ps[1..]);
    }
  }

  /** Once a token is open, every later piece has a token to extend. */
  lemma {:induction false} FoldOpen(toks: seq<string>, ps: seq<string>)
    requires toks != []
    ensures Fold(Some(toks), ps).Some? && Fold(Some(toks), ps).value != []
    decreases |ps|
  {
    if ps != [] {
      var next := Step(Some(toks), ps[0]);
      assert next.Some? && next.value != [];
      FoldOpen(next.value, ps[1..]);
    }
  }

  /** split_cstag raises IndexError exactly when the text before the first marker is
      neither empty nor the "cs:Z:" prefix. */
  lemma WellPrefixedIff(cstag: string)
    ensures WellPrefixed(cstag) <==> (cstag[..Run(cstag)] == "" || cstag[..Run(cstag)] == "cs:Z:")
  {
    var n := Run(cstag);
    var lead := cstag[..n];
    RunStops(cstag);
    if n == |cstag| {
      assert Fold(Some([]), Pieces(cstag)) == Step(Some([]), lead) by {
        assert lead == cstag;
        assert Pieces(cstag) == [cstag];
      }
    } else {
      var c := cstag[n];
      var rest := Pieces(cstag[n + 1..]);
      assert Fold(Some([]), Pieces(cstag)) == Fold(Step(Some([]), lead), [[c]] + rest) by {
        PiecesAt(cstag, n);
        assert Pieces(cstag)[1..] == [[c]] + rest;
      }
      if lead == "" || lead == "cs:Z:" {
        assert Fold(Some([]), [[c]] + rest) == Fold(Some([[c]]), rest) by {
          assert ([[c]] + rest)[1..] == rest;
          assert [] + [[c]] == [[c]];
        }
        FoldOpen([[c]], rest);
      } else {
        assert lead[0] == cstag[0];
        FoldNone([[c]] + rest);
      }
    }
  }

  /** A well-formed token: one marker, then only non-marker characters. */
  predicate IsToken(t: string)
  {
    |t| >= 1 && IsMarker(t[0]) && MarkerFree(t[1..])
  }

  predicate AllTokens(toks: seq<string>)
  {
    forall k :: 0 <= k < |toks| ==> IsToken(toks[k])
  }

  lemma ExtendToken(t: string, cs: string)
    requires IsToken(t) && MarkerFree(cs)
    ensures IsToken(t + cs)
  {
    assert (t + cs)[1..] == t[1..] + cs;
    forall k | 0 <= k < |t[1..] + cs| ensures !IsMarker((t[1..] + cs)[k]) {
      if k < |t[1..]| { assert (t[1..] + cs)[k] == t[1..][k]; } else { assert (t[1..] + cs)[k] == cs[k - |t[1..]|]; }
    }
  }

  lemma {:induction false} FoldShape(toks: seq<string>, ps: seq<string>)
    requires AllTokens(toks)
    requires forall k :: 0 <= k < |ps| ==> PieceShaped(ps[k])
    requires Fold(Some(toks), ps).Some?
    ensures AllTokens(Fold(Some(toks), ps).value)
    decreases |ps|
  {
    if ps != [] {
      var cs := ps[0];
      var next := Step(Some(toks), cs);
      if next.None? {
        FoldNone(ps[1..]);
      } else {
        if cs != "" && cs != "cs:Z:" && !IsMarker(cs[0]) {
          ExtendToken(toks[|toks| - 1], cs);
        }
        assert AllTokens(next.value);
        assert forall k :: 0 <= k < |ps[1..]| ==> PieceShaped(ps[1..][k]) by {
          forall k | 0 <= k < |ps[1..]| ensures PieceShaped(ps[1..][k]) { assert ps[1..][k] == ps[k + 1]; }
        }
        FoldShape(next.value, ps[1..]);
      }
    }
  }

  /** The tokens written one after another, as "".join(tokens). */
  function Concat(toks: seq<string>): string
  {
    if toks == [] then "" else toks[0] + Concat(toks[1..])
  }

  lemma {:induction false} ConcatSnoc(toks: seq<string>, t: string)
    ensures Concat(toks + [t]) == Concat(toks) + t
    decreases |toks|
  {
    if toks == [] {
      assert toks + [t] == [t];
    } else {
      ConcatSnoc(toks[1..], t);
      assert (toks + [t])[1..] == toks[1..] + [t];
    }
  }

  /** A piece as the loop keeps it: the "cs:Z:" prefix is skipped. */
  function Keep(p: string): string
  {
    if p == "cs:Z:" then "" else p
  }

  lemma KeepPlain(p: string)
    requires ':' !in p
    ensures Keep(p) == p
  {
    if |p| == 5 { assert p[2] != ':'; }
  }

  /** The pieces of a tag with the "cs:Z:" prefix dropped, concatenated. */
  function KeptText(ps: seq<string>): string
  {
    if ps == [] then "" else Keep(ps[0]) + KeptText(ps[1..])
  }

  lemma KeptTextPair(a: string, m: string, rest: seq<string>)
    ensures KeptText([a, m] + rest) == Keep(a) + (Keep(m) + KeptText(rest))
  {
    assert ([a, m] + rest)[1..] == [m] + rest;
    assert ([m] + rest)[1..] == rest;
  }

  lemma StepConcat(toks: seq<string>, cs: string)
    requires Step(Some(toks), cs).Some?
    ensures Concat(Step(Some(toks), cs).value) == Concat(toks) + Keep(cs)
  {
    if cs == "" || cs == "cs:Z:" {
      assert Concat(toks) + "" == Concat(toks);
    } else if IsMarker(cs[0]) {
      ConcatSnoc(toks, cs);
    } else {
      ExtendConcat(toks, cs);
    }
  }

  lemma {:induction false} ExtendConcat(toks: seq<string>, cs: string)
    requires toks != []
    ensures Concat(toks[|toks| - 1 := toks[|toks| - 1] + cs]) == Concat(toks) + cs
    decreases |toks|
  {
    var u := toks[|toks| - 1 := toks[|toks| - 1] + cs];
    if |toks| > 1 {
      var rest := toks[1..];
      ExtendConcat(rest, cs);
      assert u[1..] == rest[|rest| - 1 := rest[|rest| - 1] + cs];
    }
  }

  lemma {:induction false} FoldConcat(toks: seq<string>, ps: seq<string>)
    requires Fold(Some(toks), ps).Some?
    ensures Concat(Fold(Some(toks), ps).value) == Concat(toks) + KeptText(ps)
    decreases |ps|
  {
    if ps != [] {
      var next := Step(Some(toks), ps[0]);
      if next.None? {
        FoldNone(ps[1..]);
      } else {
        StepConcat(toks, ps[0]);
        FoldConcat(next.value, ps[1..]);
      }
    }
  }

  /** Without ':' no piece is the "cs:Z:" prefix, so every piece is kept. */
  lemma {:induction false} KeptPlain(s: string)
    requires ':' !in s
    ensures KeptText(Pieces(s)) == s
    decreases |s|
  {
    var n := Run(s);
    if n == |s| {
      KeepPlain(s);
      assert KeptText([s]) == Keep(s) + KeptText([]);
    } else {
      var a, m, b := s[..n], [s[n]], s[n + 1..];
      assert Pieces(s) == [a, m] + Pieces(b);
      assert ':' !in a && ':' !in b by {
        assert forall k :: 0 <= k < |a| ==> a[k] == s[k];
        assert forall k :: 0 <= k < |b| ==> b[k] == s[n + 1 + k];
      }
      KeepPlain(a);
      KeepPlain(m);
      KeptPlain(b);
      KeptTextPair(a, m, Pieces(b));
      Reassemble(s, n);
    }
  }

  /** A character missing from a tag is missing from the text the pieces keep. */
  lemma {:induction false} KeptAvoids(s: string, c: char)
    requires c !in s
    ensures c !in KeptText(Pieces(s))
    decreases |s|
  {
    var n := Run(s);
    if n == |s| {
      assert KeptText([s]) == Keep(s) + KeptText([]);
    } else {
      var a, m, b := s[..n], [s[n]], s[n + 1..];
      assert Pieces(s) == [a, m] + Pieces(b);
      assert c !in a && c !in b && c !in m by {
        assert forall k :: 0 <= k < |a| ==> a[k] == s[k];
        assert forall k :: 0 <= k < |b| ==> b[k] == s[n + 1 + k];
      }
      KeptAvoids(b, c);
      KeptTextPair(a, m, Pieces(b));
    }
  }

  /** A character missing from a concatenation is missing from every part. */
  lemma {:induction false} ConcatAvoids(toks: seq<string>, c: char)
    requires c !in Concat(toks)
    ensures forall k :: 0 <= k < |toks| ==> c !in toks[k]
    decreases |toks|
  {
    if toks != [] {
      ConcatAvoids(toks[1..], c);
      forall k | 0 <= k < |toks| ensures c !in toks[k] {
        if k > 0 { assert toks[k] == toks[1..][k - 1]; }
      }
    }
  }

  /** Tokens hold only characters of the tag. */
  lemma TokensAvoid(cstag: string, c: char)
    requires WellPrefixed(cstag) && c !in cstag
    ensures forall k :: 0 <= k < |Tokens(cstag)| ==> c !in Tokens(cstag)[k]
  {
    FoldConcat([], Pieces(cstag));
    KeptAvoids(cstag, c);
    ConcatAvoids(Tokens(cstag), c);
  }

  lemma PrefixMarkerFree()
    ensures MarkerFree("cs:Z:") && ':' in "cs:Z:"
  {
    assert "cs:Z:"[2] == ':';
  }

  lemma NotPrefix(p: string)
    requires ':' !in p
    ensures p != "cs:Z:"
  {
    PrefixMarkerFree();
  }

  /** Two steps of the loop at once. */
  lemma FoldPair(acc: Option<seq<string>>, a: string, b: string, ps: seq<string>)
    ensures Fold(acc, [a, b] + ps) == Fold(Step(Step(acc, a), b), ps)
  {
    assert ([a, b] + ps)[1..] == [b] + ps;
    assert ([b] + ps)[1..] == ps;
  }

  /** The "cs:Z:" prefix piece is skipped. */
  lemma FoldPrefix(ps: seq<string>)
    ensures Fold(Some([]), ["cs:Z:"] + ps) == Fold(Some([]), ps)
  {
    assert (["cs:Z:"] + ps)[1..] == ps;
  }

  /** A token's marker opens it and its text completes it. */
  lemma TokenStep(acc: seq<string>, t: string)
    requires IsToken(t) && ':' !in t
    ensures Step(Step(Some(acc), [t[0]]), t[1..]) == Some(acc + [t])
  {
    var text := t[1..];
    assert Step(Some(acc), [t[0]]) == Some(acc + [[t[0]]]);
    if text == [] {
      assert [t[0]] == t;
    } else {
      assert text != "cs:Z:" by {
        assert ':' !in text by {
          forall k | 0 <= k < |text| ensures text[k] != ':' { assert text[k] == t[k + 1]; }
        }
        NotPrefix(text);
      }
      assert MarkerFree(text) && !IsMarker(text[0]);
      assert [t[0]] + text == t;
      assert (acc + [[t[0]]])[|acc| := [t[0]] + text] == acc + [t];
    }
  }

  /** The "cs:Z:" prefix glued before a body that starts at a marker is a piece of its
      own, and skipped. */
  lemma FoldSkipsPrefix(body: string)
    requires body == [] || IsMarker(body[0])
    ensures Fold(Some([]), Pieces("cs:Z:" + body)) == Fold(Some([]), Pieces(body)[1..])
  {
    PrefixMarkerFree();
    PiecesGlue("cs:Z:", body);
    FoldPrefix(Pieces(body)[1..]);
  }

  /** A body that starts at a marker opens a token at once. */
  lemma FoldBody(body: string)
    requires body != [] && IsMarker(body[0])
    ensures Fold(Some([]), Pieces(body)[1..]) == Fold(Some([[body[0]]]), Pieces(body[1..]))
  {
    var rest := Pieces(body)[1..];
    PiecesAt(body, 0);
    assert rest == [[body[0]]] + Pieces(body[1..]);
    assert rest[1..] == Pieces(body[1..]);
    assert [] + [[body[0]]] == [[body[0]]];
  }

  /** The pieces after the first one spell the whole body. */
  lemma KeptBody(body: string)
    requires ':' !in body
    requires body == [] || IsMarker(body[0])
    ensures KeptText(Pieces(body)[1..]) == body
  {
    FirstPieceEmpty(body);
    KeptPlain(body);
    assert KeptText(Pieces(body)) == Keep("") + KeptText(Pieces(body)[1..]);
  }

  /** The tokens concatenate back to the tag without its "cs:Z:" prefix, when the body
      starts at a marker and holds no ':' (a cs tag's body never does). */
  lemma TokensConcat(body: string)
    requires ':' !in body
    requires body == [] || IsMarker(body[0])
    ensures WellPrefixed("cs:Z:" + body)
    ensures Concat(Tokens("cs:Z:" + body)) == body
  {
    var rest := Pieces(body)[1..];
    FoldSkipsPrefix(body);
    if body != [] {
      FoldBody(body);
      FoldOpen([[body[0]]], Pieces(body[1..]));
    }
    FoldConcat([], rest);
    KeptBody(body);
  }

  /** The pieces of a token followed by a tag that starts at a marker. */
  lemma PiecesMarker(s: string)
    requires s != [] && IsMarker(s[0])
    ensures Pieces(s)[1..] == [[s[0]]] + Pieces(s[1..])
  {
    assert Run(s) == 0;
    PiecesAt(s, 0);
  }

  lemma PiecesToken(t: string, r: string)
    requires IsToken(t)
    requires r == [] || IsMarker(r[0])
    ensures Pieces(t + r)[1..] == [[t[0]], t[1..]] + Pieces(r)[1..]
  {
    var s, text := t + r, t[1..];
    assert s[1..] == text + r;
    PiecesMarker(s);
    PiecesGlue(text, r);
    assert [[t[0]]] + ([text] + Pieces(r)[1..]) == [[t[0]], text] + Pieces(r)[1..];
  }

  lemma {:induction false} RoundTrip(acc: seq<string>, toks: seq<string>)
    requires AllTokens(toks)
    requires forall k :: 0 <= k < |toks| ==> ':' !in toks[k]
    ensures Concat(toks) == [] || IsMarker(Concat(toks)[0])
    ensures Fold(Some(acc), Pieces(Concat(toks))[1..]) == Some(acc + toks)
    decreases |toks|
  {
    if toks == [] {
      assert acc + toks == acc;
    } else {
      var t, rest := toks[0], toks[1..];
      assert AllTokens(rest) && forall k :: 0 <= k < |rest| ==> ':' !in rest[k] by {
        forall k | 0 <= k < |rest| ensures IsToken(rest[k]) && ':' !in rest[k] { assert rest[k] == toks[k + 1]; }
      }
      var tail := Pieces(Concat(rest))[1..];
      RoundTrip(acc + [t], rest);
      assert Pieces(Concat(toks))[1..] == [[t[0]], t[1..]] + tail by {
        assert Concat(toks) == t + Concat(rest);
        PiecesToken(t, Concat(rest));
      }
      FoldPair(Some(acc), [t[0]], t[1..], tail);
      TokenStep(acc, t);
      assert acc + [t] + rest == acc + toks;
    }
  }

  /** split_cstag inverts concatenation: the "cs:Z:" prefix and the concatenated tokens
      are split back into the same tokens. */
  lemma TokensOfConcat(toks: seq<string>)
    requires AllTokens(toks)
    requires forall k :: 0 <= k < |toks| ==> ':' !in toks[k]
    ensures WellPrefixed("cs:Z:" + Concat(toks))
    ensures Tokens("cs:Z:" + Concat(toks)) == toks
  {
    var body := Concat(toks);
    RoundTrip([], toks);
    assert Fold(Some([]), Pieces("cs:Z:" + body)) == Fold(Some([]), Pieces(body)[1..]) by {
      PrefixMarkerFree();
      PiecesGlue("cs:Z:", body);
      FoldPrefix(Pieces(body)[1..]);
    }
    assert [] + toks == toks;
  }

  /** A token whose text holds no marker and no ':'. */
  lemma TokenOf(t: string)
    requires |t| >= 1 && IsMarker(t[0])
    requires forall k :: 1 <= k < |t| ==> !IsMarker(t[k]) && t[k] != ':'
    ensures IsToken(t) && ':' !in t
  {
    assert forall k :: 0 <= k < |t[1..]| ==> t[1..][k] == t[k + 1];
  }

  const ExampleTokens: seq<string> := ["=ACGT", "*ag", "=C", "-g", "=T", "+t", "=ACGT"]

  lemma ExampleTokensShape(toks: seq<string>)
    requires toks == ExampleTokens
    ensures AllTokens(toks) && forall k :: 0 <= k < |toks| ==> ':' !in toks[k]
  {
    TokenOf("=ACGT");
    TokenOf("*ag");
    TokenOf("=C");
    TokenOf("-g");
    TokenOf("=T");
    TokenOf("+t");
  }

  lemma ConcatCons(t: string, toks: seq<string>)
    ensures Concat([t] + toks) == t + Concat(toks)
  {
    assert ([t] + toks)[1..] == toks;
  }

  lemma Concat7(a: string, b: string, c: string, d: string, e: string, f: string, g: string)
    ensures Concat([a, b, c, d, e, f, g]) == a + (b + (c + (d + (e + (f + g)))))
  {
    ConcatCons(g, []);
    ConcatCons(f, [g]);
    ConcatCons(e, [f, g]);
    ConcatCons(d, [e, f, g]);
    ConcatCons(c, [d, e, f, g]);
    ConcatCons(b, [c, d, e, f, g]);
    ConcatCons(a, [b, c, d, e, f, g]);
    assert [a] + [b, c, d, e, f, g] == [a, b, c, d, e, f, g];
    assert [b] + [c, d, e, f, g] == [b, c, d, e, f, g];
    assert [c] + [d, e, f, g] == [c, d, e, f, g];
    assert [d] + [e, f, g] == [d, e, f, g];
    assert [e] + [f, g] == [e, f, g];
    assert [f] + [g] == [f, g];
    assert [g] + [] == [g];
  }

  lemma ExampleTagPieces(cstag: string)
    requires cstag == "cs:Z:=ACGT*ag=C-g=T+t=ACGT"
    ensures cstag == "cs:Z:" + ("=ACGT" + ("*ag" + ("=C" + ("-g" + ("=T" + ("+t" + "=ACGT"))))))
  {
  }

  /** The documented example of split_cstag. */
  lemma SplitCstagExample(cstag: string)
    requires cstag == "cs:Z:=ACGT*ag=C-g=T+t=ACGT"
    ensures WellPrefixed(cstag)
    ensures Tokens(cstag) == ["=ACGT", "*ag", "=C", "-g", "=T", "+t", "=ACGT"]
  {
    var toks := ExampleTokens;
    ExampleTokensShape(toks);
    Concat7("=ACGT", "*ag", "=C", "-g", "=T", "+t", "=ACGT");
    ExampleTagPieces(cstag);
    TokensOfConcat(toks);
  }
}
