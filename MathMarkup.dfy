/** The formula delimiters shared by the segmenter and the sanitizer, and the
    meaning of a global scan with their regular expression: at each scan
    position the earliest start wins, at one start the alternatives are tried
    in source order (at most one of them matches there, see
    `OneAlternativeAt`), and every body is the shortest one (non-greedy). */
module MathMarkup {
  import opened JsString

  /** The delimiter pairs, in the order the patterns list them:
      `$$…$$`, `$…$`, `\(…\)`, `\[…\]`. */
  datatype Delim = DoubleDollar | Dollar | Paren | Bracket

  /** Alternatives of the segmenter's pattern, in source order. */
  const TextMathAlts: seq<Delim> := [DoubleDollar, Dollar, Paren, Bracket]

  /** Alternatives of the sanitizer's pattern, in source order. */
  const DollarAlts: seq<Delim> := [DoubleDollar, Dollar]

  /** The identity that the renderer's normaliser substitutes for a
      recognised theta-function request, and that the sanitizer's
      explanation contains: the series, the product, and its factors,
      written as one string in the source. */
  const ThetaIdentity: string := ThetaSeries + ThetaProduct + ThetaFactors
  const ThetaSeries: string := "\\sum_{n=-\\infty}^{\\infty} z^n q^{n^2} = "
  const ThetaProduct: string := "\\prod_{n=1}^{\\infty} (1-q^{2n})"
  const ThetaFactors: string := "(1+zq^{2n-1})(1+z^{-1}q^{2n-1})"

  /** ASCII only, with no `*` and no `$`. */
  predicate AsciiFormula(s: string) {
    forall k :: 0 <= k < |s| ==> s[k] as int < 128 && s[k] != '*' && s[k] != '$'
  }

  lemma {:induction false} AsciiFormulaAppend(a: string, b: string)
    requires AsciiFormula(a) && AsciiFormula(b)
    ensures AsciiFormula(a + b)
  {
  }

  lemma {:induction false} SeriesAscii() ensures AsciiFormula(ThetaSeries) { }
  lemma {:induction false} ProductAscii() ensures AsciiFormula(ThetaProduct) { }
  lemma {:induction false} FactorsAscii() ensures AsciiFormula(ThetaFactors) { }

  /** The identity is plain ASCII with no `*` and no `$`. */
  lemma {:induction false} IdentityAscii()
    ensures AsciiFormula(ThetaIdentity)
  {
    SeriesAscii();
    ProductAscii();
    FactorsAscii();
    AsciiFormulaAppend(ThetaSeries, ThetaProduct);
    AsciiFormulaAppend(ThetaSeries + ThetaProduct, ThetaFactors);
  }

  function Width(d: Delim): nat {
    if d == Dollar then 1 else 2
  }

  function Open(d: Delim): (r: string)
    ensures |r| == Width(d)
  {
    match d
    case DoubleDollar => "$$"
    case Dollar => "$"
    case Paren => "\\("
    case Bracket => "\\["
  }

  function Close(d: Delim): (r: string)
    ensures |r| == Width(d)
  {
    match d
    case DoubleDollar => "$$"
    case Dollar => "$"
    case Paren => "\\)"
    case Bracket => "\\]"
  }

  /** The characters `a` and `b` stand at positions `k` and `k + 1` of `s`. */
  predicate PairAt(s: string, k: int, a: char, b: char) {
    0 <= k && k + 1 < |s| && s[k] == a && s[k + 1] == b
  }

  /** `s[i..e]` is a complete span of delimiter `d`: the opening delimiter, a
      body of at least one character, the closing delimiter; for `$…$` the
      body holds neither `$` nor a line break. */
  predicate IsSpan(s: string, i: int, e: int, d: Delim) {
    0 <= i && i + 2 * Width(d) < e <= |s| &&
    if d == Dollar then
      s[i] == '$' && s[e - 1] == '$' &&
      forall k :: i < k < e - 1 ==> s[k] != '$' && s[k] != '\n'
    else
      PairAt(s, i, Open(d)[0], Open(d)[1]) && PairAt(s, e - 2, Close(d)[0], Close(d)[1])
  }

  /** The first position at or after `j` where `a` is followed by `b`. */
  function FindPair(s: string, j: nat, a: char, b: char): (r: Option<nat>)
    decreases |s| - j
    ensures r.Some? ==> j <= r.value && PairAt(s, r.value, a, b)
    ensures r.Some? ==> forall k :: j <= k < r.value ==> !PairAt(s, k, a, b)
    ensures r.None? ==> forall k :: j <= k ==> !PairAt(s, k, a, b)
  {
    if j + 1 >= |s| then None
    else if s[j] == a && s[j + 1] == b then Some(j)
    else FindPair(s, j + 1, a, b)
  }

  /** The first `$` at or after `j`, provided no line break comes before it
      (the body `[^$\n]+?` of the inline pattern). */
  function InlineClose(s: string, j: nat): (r: Option<nat>)
    decreases |s| - j
    ensures r.Some? ==> j <= r.value < |s| && s[r.value] == '$'
    ensures r.Some? ==> forall k :: j <= k < r.value ==> s[k] != '$' && s[k] != '\n'
    ensures forall k :: j <= k < |s| && s[k] == '$' && (forall m :: j <= m < k ==> s[m] != '$' && s[m] != '\n') ==> r == Some(k)
  {
    if j >= |s| then None
    else if s[j] == '$' then Some(j)
    else if s[j] == '\n' then None
    else InlineClose(s, j + 1)
  }

  /** The end of the match of alternative `d` at position `i`, if any. */
  function MatchWith(s: string, i: nat, d: Delim): (r: Option<nat>)
    requires i <= |s|
    ensures r.Some? ==> IsSpan(s, i, r.value, d)
  {
    if d == Dollar then
      if i < |s| && s[i] == '$' then
        match InlineClose(s, i + 1)
        case Some(k) => if k > i + 1 then Some(k + 1) else None
        case None => None
      else None
    else
      var o, c := Open(d), Close(d);
      if PairAt(s, i, o[0], o[1]) then
        match FindPair(s, i + 3, c[0], c[1])
        case Some(k) => Some(k + 2)
        case None => None
      else None
  }

  /** An alternative matches at `i` exactly when a complete span of it starts
      there, and the match is the shortest such span, as a non-greedy body
      gives. */
  lemma {:induction false} MatchWithShortest(s: string, i: nat, d: Delim)
    requires i <= |s|
    ensures MatchWith(s, i, d).Some? ==> forall e :: e < MatchWith(s, i, d).value ==> !IsSpan(s, i, e, d)
    ensures MatchWith(s, i, d).None? ==> forall e :: !IsSpan(s, i, e, d)
  {
    if d == Dollar {
      if i < |s| && s[i] == '$' {
        var c := InlineClose(s, i + 1);
        forall e | IsSpan(s, i, e, d) ensures c == Some(e - 1) {
        }
      }
    } else {
      var o, c := Open(d), Close(d);
      if PairAt(s, i, o[0], o[1]) {
        var k := FindPair(s, i + 3, c[0], c[1]);
        forall e | IsSpan(s, i, e, d) ensures k.Some? && k.value + 2 <= e {
          assert PairAt(s, e - 2, c[0], c[1]);
        }
      }
    }
  }

  /** At most one alternative matches at any position: `$$` needs a second
      `$` where a `$…$` body cannot start with one, and the other two differ
      in their first or second character. So the order in which the pattern
      lists them never shows. */
  lemma {:induction false} OneAlternativeAt(s: string, i: nat, d1: Delim, d2: Delim)
    requires i <= |s| && MatchWith(s, i, d1).Some? && MatchWith(s, i, d2).Some?
    ensures d1 == d2
  {
    if d1 == Dollar {
      assert s[i + 1] != '$';
    }
    if d2 == Dollar {
      assert s[i + 1] != '$';
    }
  }

  /** One match of a pattern: which alternative, where it starts and ends. */
  datatype Match = Match(delim: Delim, start: nat, end: nat)

  /** The match at position `i`, trying the alternatives in order. */
  function MatchFirst(s: string, i: nat, alts: seq<Delim>): (r: Option<Match>)
    requires i <= |s|
    ensures r.Some? ==> r.value.start == i && r.value.delim in alts && IsSpan(s, i, r.value.end, r.value.delim)
  {
    if alts == [] then None
    else
      match MatchWith(s, i, alts[0])
      case Some(e) => Some(Match(alts[0], i, e))
      case None => MatchFirst(s, i, alts[1..])
  }

  /** `MatchFirst` takes the first alternative, in pattern order, that
      matches at `i`; it finds nothing only when no alternative matches there. */
  lemma {:induction false} MatchFirstOrder(s: string, i: nat, alts: seq<Delim>)
    requires i <= |s|
    ensures MatchFirst(s, i, alts).Some? ==>
      MatchWith(s, i, MatchFirst(s, i, alts).value.delim) == Some(MatchFirst(s, i, alts).value.end)
    ensures MatchFirst(s, i, alts).None? <==> forall d :: d in alts ==> MatchWith(s, i, d).None?
    ensures forall k ::
      (0 <= k < |alts| && MatchWith(s, i, alts[k]).Some? && forall j :: 0 <= j < k ==> MatchWith(s, i, alts[j]).None?)
      ==> MatchFirst(s, i, alts) == Some(Match(alts[k], i, MatchWith(s, i, alts[k]).value))
  {
    if alts != [] && MatchWith(s, i, alts[0]).None? {
      var tail := alts[1..];
      MatchFirstOrder(s, i, tail);
      assert MatchFirst(s, i, alts) == MatchFirst(s, i, tail);
      forall k | 0 <= k < |alts| && MatchWith(s, i, alts[k]).Some? &&
        (forall j :: 0 <= j < k ==> MatchWith(s, i, alts[j]).None?)
        ensures MatchFirst(s, i, alts) == Some(Match(alts[k], i, MatchWith(s, i, alts[k]).value))
      {
        assert k > 0;
        assert tail[k - 1] == alts[k];
        forall j | 0 <= j < k - 1 ensures MatchWith(s, i, tail[j]).None? {
          assert tail[j] == alts[j + 1];
        }
      }
      assert forall d :: d in alts <==> d == alts[0] || d in tail;
    }
  }

  /** No alternative matches at `i` exactly when no complete span of any
      alternative starts there. */
  lemma {:induction false} NoMatchAt(s: string, i: nat, alts: seq<Delim>)
    requires i <= |s|
    ensures MatchFirst(s, i, alts).None? <==> forall d, e :: d in alts ==> !IsSpan(s, i, e, d)
  {
    MatchFirstOrder(s, i, alts);
    if MatchFirst(s, i, alts).None? {
      forall d, e | d in alts ensures !IsSpan(s, i, e, d) {
        MatchWithShortest(s, i, d);
      }
    }
  }

  /** `regex.exec` with `lastIndex == from`: the match that starts earliest at
      or after `from`. */
  function FindMatch(s: string, from: nat, alts: seq<Delim>): (r: Option<Match>)
    requires from <= |s|
    decreases |s| - from
    ensures r.Some? ==> from <= r.value.start && r.value.delim in alts && IsSpan(s, r.value.start, r.value.end, r.value.delim)
  {
    var here := MatchFirst(s, from, alts);
    if here.Some? then here
    else if from == |s| then None
    else FindMatch(s, from + 1, alts)
  }

  /** `FindMatch` returns the match at the earliest position at which any
      alternative matches, and nothing when there is none. */
  lemma {:induction false} FindMatchEarliest(s: string, from: nat, alts: seq<Delim>)
    requires from <= |s|
    decreases |s| - from
    ensures FindMatch(s, from, alts).Some? ==> MatchFirst(s, FindMatch(s, from, alts).value.start, alts) == FindMatch(s, from, alts)
    ensures FindMatch(s, from, alts).Some? ==>
      forall i :: from <= i < FindMatch(s, from, alts).value.start ==> MatchFirst(s, i, alts).None?
    ensures FindMatch(s, from, alts).None? ==> forall i :: from <= i <= |s| ==> MatchFirst(s, i, alts).None?
  {
    if MatchFirst(s, from, alts).None? && from < |s| {
      FindMatchEarliest(s, from + 1, alts);
    }
  }

  /** A piece of a reply: plain text, or a formula with the delimiter pair
      that enclosed it and its body. */
  datatype Segment = TextSegment(text: string) | MathSegment(delim: Delim, formula: string)

  /** The source text a segment stands for, delimiters restored. */
  function Span(seg: Segment): string {
    match seg
    case TextSegment(t) => t
    case MathSegment(d, f) => Open(d) + f + Close(d)
  }

  function Reassemble(segs: seq<Segment>): string {
    if segs == [] then [] else Span(segs[0]) + Reassemble(segs[1..])
  }

  /** A gap of text as a segment, or nothing when the gap is empty. */
  function TextOf(t: string): (r: seq<Segment>)
    ensures Reassemble(r) == t
  {
    if t == [] then [] else [TextSegment(t)]
  }

  /** The scan of `s` from `from` on, as the loop over `regex.exec` produces
      it: the gap before each match as text, the match as a formula with its
      delimiters stripped, and the scan resuming at the match's end. */
  function Segments(s: string, from: nat, alts: seq<Delim>): seq<Segment>
    requires from <= |s|
    decreases |s| - from
  {
    match FindMatch(s, from, alts)
    case None => TextOf(s[from..])
    case Some(m) =>
      TextOf(s[from..m.start]) + ([MathSegment(m.delim, s[m.start + Width(m.delim)..m.end - Width(m.delim)])] + Segments(s, m.end, alts))
  }

  /** One step of the scan: the gap before the first match, the match's
      formula, then the scan from the match's end. */
  lemma {:induction false} SegmentsStep(s: string, from: nat, alts: seq<Delim>, m: Match)
    requires from <= |s| && FindMatch(s, from, alts) == Some(m)
    ensures Segments(s, from, alts) ==
      TextOf(s[from..m.start]) + ([MathSegment(m.delim, s[m.start + Width(m.delim)..m.end - Width(m.delim)])] + Segments(s, m.end, alts))
  {
  }

  /** A segment on its own is well formed: text is non-empty; a formula comes
      from one of the pattern's alternatives, has a non-empty body, and a
      `$…$` body holds neither `$` nor a line break. */
  predicate SegmentOk(seg: Segment, alts: seq<Delim>) {
    match seg
    case TextSegment(t) => t != []
    case MathSegment(d, f) => d in alts && f != [] && (d == Dollar ==> '$' !in f && '\n' !in f)
  }

  /** Every segment is well formed and no two text segments are adjacent. */
  predicate WellFormed(segs: seq<Segment>, alts: seq<Delim>)
    decreases |segs|
  {
    segs == [] ||
    (SegmentOk(segs[0], alts) &&
     (|segs| > 1 && segs[0].TextSegment? ==> segs[1].MathSegment?) &&
     WellFormed(segs[1..], alts))
  }

  lemma {:induction false} SliceThree(s: string, a: nat, b: nat, c: nat, e: nat)
    requires a <= b <= c <= e <= |s|
    ensures s[a..e] == s[a..b] + s[b..c] + s[c..e]
  {
    assert s[a..e] == s[a..b] + s[b..e];
    assert s[b..e] == s[b..c] + s[c..e];
  }

  /** A span with its delimiters restored is the text it was cut from. */
  lemma {:induction false} SpanText(s: string, i: nat, e: nat, d: Delim)
    requires IsSpan(s, i, e, d)
    ensures s[i..e] == Open(d) + s[i + Width(d)..e - Width(d)] + Close(d)
  {
    var w := Width(d);
    SliceThree(s, i, i + w, e - w, e);
    if d == Dollar {
      assert s[i..i + w] == [s[i]];
      assert s[e - w..e] == [s[e - 1]];
    } else {
      assert s[i..i + w] == [s[i], s[i + 1]];
      assert s[e - w..e] == [s[e - 2], s[e - 1]];
    }
  }

  lemma {:induction false} ReassembleAppend(a: seq<Segment>, b: seq<Segment>)
    ensures Reassemble(a + b) == Reassemble(a) + Reassemble(b)
  {
    if a == [] {
      assert a + b == b;
    } else {
      assert (a + b)[1..] == a[1..] + b;
      ReassembleAppend(a[1..], b);
    }
  }

  lemma {:induction false} ReassembleCons(g: seq<Segment>, f: Segment, rest: seq<Segment>)
    ensures Reassemble(g + ([f] + rest)) == Reassemble(g) + Span(f) + Reassemble(rest)
  {
    assert ([f] + rest)[1..] == rest;
    ReassembleAppend(g, [f] + rest);
  }

  lemma {:induction false} SplitThree(s: string, x: nat, y: nat, z: nat)
    requires x <= y <= z <= |s|
    ensures s[x..] == s[x..y] + s[y..z] + s[z..]
  {
  }

  /** Re-assembling the scan, each formula wrapped again in the delimiter
      pair it was found with, gives back exactly the scanned text. */
  lemma {:induction false} SegmentsRoundTrip(s: string, from: nat, alts: seq<Delim>)
    requires from <= |s|
    decreases |s| - from
    ensures Reassemble(Segments(s, from, alts)) == s[from..]
  {
    match FindMatch(s, from, alts)
    case None =>
    case Some(m) =>
      var d, i, e := m.delim, m.start, m.end;
      var f := MathSegment(d, s[i + Width(d)..e - Width(d)]);
      var g, rest := TextOf(s[from..i]), Segments(s, e, alts);
      SegmentsStepAt(s, from, alts, d, i, e, f.formula);
      SegmentsRoundTrip(s, e, alts);
      assert Span(f) == s[i..e] by {
        SpanText(s, i, e, d);
      }
      ReassembleCons(g, f, rest);
      SplitThree(s, from, i, e);
  }

  /** The formula a match yields is well formed. */
  lemma {:induction false} MatchFormula(s: string, m: Match, alts: seq<Delim>)
    requires IsSpan(s, m.start, m.end, m.delim) && m.delim in alts
    ensures SegmentOk(MathSegment(m.delim, s[m.start + Width(m.delim)..m.end - Width(m.delim)]), alts)
  {
    var body := s[m.start + Width(m.delim)..m.end - Width(m.delim)];
    if m.delim == Dollar {
      forall j | 0 <= j < |body| ensures body[j] != '$' && body[j] != '\n' {
        assert body[j] == s[m.start + 1 + j];
      }
    }
  }

  /** Text before a formula keeps a well-formed tail well formed. */
  lemma {:induction false} WellFormedAfterGap(t: string, f: Segment, rest: seq<Segment>, alts: seq<Delim>)
    requires f.MathSegment? && SegmentOk(f, alts) && WellFormed(rest, alts)
    ensures WellFormed(TextOf(t) + ([f] + rest), alts)
  {
    assert ([f] + rest)[1..] == rest;
    assert WellFormed([f] + rest, alts);
    if t == [] {
      assert TextOf(t) + ([f] + rest) == [f] + rest;
    } else {
      var r := TextOf(t) + ([f] + rest);
      assert r[1..] == [f] + rest && r[1] == f;
    }
  }

  /** The scan never yields an empty text segment or two text segments in a
      row, and every formula body is non-empty, with no `$` or line break in
      a `$…$` body. */
  lemma {:induction false} SegmentsWellFormed(s: string, from: nat, alts: seq<Delim>)
    requires from <= |s|
    decreases |s| - from
    ensures WellFormed(Segments(s, from, alts), alts)
  {
    match FindMatch(s, from, alts)
    case None =>
    case Some(m) =>
      var d, i, e := m.delim, m.start, m.end;
      var f := MathSegment(d, s[i + Width(d)..e - Width(d)]);
      var rest := Segments(s, e, alts);
      SegmentsStepAt(s, from, alts, d, i, e, f.formula);
      SegmentsWellFormed(s, e, alts);
      MatchFormula(s, m, alts);
      WellFormedAfterGap(s[from..i], f, rest, alts);
  }

  /** Text in which no formula can start: no `$` and no backslash. */
  predicate Plain(t: string) {
    forall k :: 0 <= k < |t| ==> t[k] != '$' && t[k] != '\\'
  }

  /** A body that, put between the delimiters of `d`, is read back as one
      formula: non-empty, with no `$` for the two dollar pairs (no line
      break either for `$…$`), and without the closing pair of `\(…\)` or
      `\[…\]`. For `$$…$$` this is stricter than the pattern, which a lone
      `$` inside the body does not end; `WholeFormula` covers such bodies. */
  predicate CleanBody(c: string, d: Delim) {
    c != [] &&
    match d
    case DoubleDollar => forall j :: 0 <= j < |c| ==> c[j] != '$'
    case Dollar => forall j :: 0 <= j < |c| ==> c[j] != '$' && c[j] != '\n'
    case Paren => forall j :: 0 <= j < |c| ==> !PairAt(c, j, '\\', ')')
    case Bracket => forall j :: 0 <= j < |c| ==> !PairAt(c, j, '\\', ']')
  }

  /** No alternative can match at a position holding neither `$` nor a
      backslash, nor at the end of the text. */
  lemma {:induction false} NoStartAt(s: string, i: nat, alts: seq<Delim>)
    requires i <= |s|
    requires i < |s| ==> s[i] != '$' && s[i] != '\\'
    ensures MatchFirst(s, i, alts).None?
  {
    MatchFirstOrder(s, i, alts);
  }

  /** The scan passes over text in which no formula can start. */
  lemma {:induction false} SkipPlain(s: string, from: nat, stop: nat, alts: seq<Delim>)
    requires from <= stop <= |s|
    requires forall k :: from <= k < stop ==> (s[k] != '$' && s[k] != '\\')
    decreases stop - from
    ensures FindMatch(s, from, alts) == FindMatch(s, stop, alts)
  {
    if from < stop {
      NoStartAt(s, from, alts);
      SkipPlain(s, from + 1, stop, alts);
    }
  }

  /** A tail in which no formula can start is one text segment. */
  lemma {:induction false} PlainTail(s: string, from: nat, alts: seq<Delim>)
    requires from <= |s| && Plain(s[from..])
    ensures Segments(s, from, alts) == TextOf(s[from..])
  {
    forall k | from <= k < |s| ensures s[k] != '$' && s[k] != '\\' {
      assert s[k] == s[from..][k - from];
    }
    SkipPlain(s, from, |s|, alts);
    NoStartAt(s, |s|, alts);
  }

  /** A single `$` with no other `$` and no backslash around it opens
      nothing: the whole text is one text segment. */
  lemma {:induction false} LoneDollar(p: string, q: string, alts: seq<Delim>)
    requires Plain(p) && Plain(q)
    ensures Segments(p + "$" + q, 0, alts) == TextOf(p + "$" + q)
  {
    var s := p + "$" + q;
    var i := |p|;
    forall k | 0 <= k < i ensures s[k] != '$' && s[k] != '\\' {
      assert s[k] == p[k];
    }
    SkipPlain(s, 0, i, alts);
    forall k | i + 1 <= k < |s| ensures s[k] != '$' && s[k] != '\\' {
      assert s[k] == q[k - i - 1];
    }
    forall d, e | d in alts ensures !IsSpan(s, i, e, d) {
    }
    NoMatchAt(s, i, alts);
    SkipPlain(s, i + 1, |s|, alts);
    NoStartAt(s, |s|, alts);
    assert s[0..] == s;
  }

  /** At an opening delimiter of `d`, no other alternative matches (the
      body of a `$…$` formula never starts with `$`). */
  lemma {:induction false} OnlyAlternative(s: string, i: nat, d: Delim)
    requires i + Width(d) < |s| && s[i..i + Width(d)] == Open(d)
    requires d == Dollar ==> s[i + 1] != '$'
    ensures forall d' :: d' != d ==> MatchWith(s, i, d').None?
  {
    assert s[i] == Open(d)[0] by { assert s[i..i + Width(d)][0] == s[i]; }
    if d != Dollar {
      assert s[i + 1] == Open(d)[1] by { assert s[i..i + Width(d)][1] == s[i + 1]; }
    }
  }

  /** A `$…$` span whose body holds no `$` and no line break matches whole. */
  lemma {:induction false} DollarAtOpen(s: string, i: nat, c: string)
    requires i + 2 + |c| <= |s| && CleanBody(c, Dollar)
    requires s[i] == '$' && s[i + 1..i + 1 + |c|] == c && s[i + 1 + |c|] == '$'
    ensures MatchWith(s, i, Dollar) == Some(i + 2 + |c|)
  {
    forall k | i + 1 <= k < i + 1 + |c| ensures s[k] != '$' && s[k] != '\n' {
      assert s[k] == c[k - i - 1];
    }
  }

  /** A two-character delimiter pair with no closing pair before `k0`
      matches up to the closing pair at `k0`. */
  lemma {:induction false} PairAtOpen(s: string, i: nat, d: Delim, k0: nat)
    requires d != Dollar && i + 3 <= k0
    requires PairAt(s, i, Open(d)[0], Open(d)[1]) && PairAt(s, k0, Close(d)[0], Close(d)[1])
    requires forall k :: i + 3 <= k < k0 ==> !PairAt(s, k, Close(d)[0], Close(d)[1])
    ensures MatchWith(s, i, d) == Some(k0 + 2)
  {
  }

  /** A clean body holds no closing pair of its delimiter, and none
      straddles its end. */
  lemma {:induction false} NoCloseInBody(s: string, i: nat, d: Delim, c: string)
    requires d != Dollar && i + 4 + |c| <= |s| && CleanBody(c, d)
    requires s[i + 2..i + 2 + |c|] == c && s[i + 2 + |c|] == Close(d)[0]
    ensures forall k :: i + 3 <= k < i + 2 + |c| ==> !PairAt(s, k, Close(d)[0], Close(d)[1])
  {
    var k0 := i + 2 + |c|;
    forall k | i + 3 <= k < k0 ensures !PairAt(s, k, Close(d)[0], Close(d)[1]) {
      assert s[k] == c[k - i - 2];
      if k + 1 < k0 {
        assert s[k + 1] == c[k - i - 1];
        assert !PairAt(c, k - i - 2, Close(d)[0], Close(d)[1]);
      }
    }
  }

  /** At the opening delimiter of `d` followed by a clean body and the
      closing delimiter, alternative `d` matches exactly that span and no
      other alternative matches at all. */
  lemma {:induction false} MatchAtOpen(s: string, i: nat, d: Delim, c: string)
    requires i + 2 * Width(d) + |c| <= |s| && CleanBody(c, d)
    requires s[i..i + Width(d)] == Open(d)
    requires s[i + Width(d)..i + Width(d) + |c|] == c
    requires s[i + Width(d) + |c|..i + 2 * Width(d) + |c|] == Close(d)
    ensures MatchWith(s, i, d) == Some(i + 2 * Width(d) + |c|)
    ensures forall d' :: d' != d ==> MatchWith(s, i, d').None?
  {
    var w := Width(d);
    var k0 := i + w + |c|;
    assert s[i + w] == c[0] by { assert s[i + w..k0][0] == s[i + w]; }
    OnlyAlternative(s, i, d);
    assert s[i] == Open(d)[0] by { assert s[i..i + w][0] == s[i]; }
    assert s[k0] == Close(d)[0] by { assert s[k0..k0 + w][0] == s[k0]; }
    if d == Dollar {
      DollarAtOpen(s, i, c);
    } else {
      assert s[i + 1] == Open(d)[1] by { assert s[i..i + w][1] == s[i + 1]; }
      assert s[k0 + 1] == Close(d)[1] by { assert s[k0..k0 + w][1] == s[k0 + 1]; }
      NoCloseInBody(s, i, d, c);
      PairAtOpen(s, i, d, k0);
    }
  }

  /** An input that is one formula from end to end, the shortest span of its
      delimiter pair at the start reaching the last character, is read as
      that one formula segment, whatever its body holds. */
  lemma {:induction false} WholeFormula(s: string, d: Delim, alts: seq<Delim>)
    requires d in alts && IsSpan(s, 0, |s|, d)
    requires forall e :: e < |s| ==> !IsSpan(s, 0, e, d)
    ensures Segments(s, 0, alts) == [MathSegment(d, s[Width(d)..|s| - Width(d)])]
  {
    MatchWithShortest(s, 0, d);
    assert MatchWith(s, 0, d) == Some(|s|);
    MatchFirstOrder(s, 0, alts);
    var m := MatchFirst(s, 0, alts).value;
    OneAlternativeAt(s, 0, m.delim, d);
    assert FindMatch(s, 0, alts) == Some(Match(d, 0, |s|));
    SegmentsStep(s, 0, alts, Match(d, 0, |s|));
    PlainTail(s, |s|, alts);
    assert s[0..0] == [];
  }

  /** Plain text from `from` up to an opening delimiter followed by a clean
      body and its closing delimiter: the scan yields that text, then the
      formula, then carries on after it. */
  lemma {:induction false} StepOverFormula(s: string, from: nat, i: nat, d: Delim, c: string, alts: seq<Delim>)
    requires from <= i && i + 2 * Width(d) + |c| <= |s| && CleanBody(c, d) && d in alts
    requires Plain(s[from..i])
    requires s[i..i + Width(d)] == Open(d)
    requires s[i + Width(d)..i + Width(d) + |c|] == c
    requires s[i + Width(d) + |c|..i + 2 * Width(d) + |c|] == Close(d)
    ensures Segments(s, from, alts) == TextOf(s[from..i]) + ([MathSegment(d, c)] + Segments(s, i + 2 * Width(d) + |c|, alts))
  {
    var w := Width(d);
    var e := i + 2 * w + |c|;
    FindFormula(s, from, i, d, c, alts);
    assert e - w == i + w + |c|;
    SegmentsStepAt(s, from, alts, d, i, e, c);
  }

  /** `SegmentsStep` with the match's parts named. */
  lemma {:induction false} SegmentsStepAt(s: string, from: nat, alts: seq<Delim>, d: Delim, i: nat, e: nat, c: string)
    requires from <= |s| && FindMatch(s, from, alts) == Some(Match(d, i, e))
    requires i + Width(d) <= e - Width(d) && c == s[i + Width(d)..e - Width(d)]
    ensures Segments(s, from, alts) == TextOf(s[from..i]) + ([MathSegment(d, c)] + Segments(s, e, alts))
  {
    var m := Match(d, i, e);
    SegmentsStep(s, from, alts, m);
    assert MathSegment(m.delim, s[m.start + Width(m.delim)..m.end - Width(m.delim)]) == MathSegment(d, c);
  }

  /** The scan's next match is that formula. */
  lemma {:induction false} FindFormula(s: string, from: nat, i: nat, d: Delim, c: string, alts: seq<Delim>)
    requires from <= i && i + 2 * Width(d) + |c| <= |s| && CleanBody(c, d) && d in alts
    requires Plain(s[from..i])
    requires s[i..i + Width(d)] == Open(d)
    requires s[i + Width(d)..i + Width(d) + |c|] == c
    requires s[i + Width(d) + |c|..i + 2 * Width(d) + |c|] == Close(d)
    ensures FindMatch(s, from, alts) == Some(Match(d, i, i + 2 * Width(d) + |c|))
  {
    MatchAtOpen(s, i, d, c);
    MatchFirstOrder(s, i, alts);
    forall k | from <= k < i ensures s[k] != '$' && s[k] != '\\' {
      assert s[k] == s[from..i][k - from];
    }
    SkipPlain(s, from, i, alts);
  }

  lemma {:induction false} FiveSlices(a: string, b: string, c: string, d: string, e: string)
    ensures var s, i, j, k, l := a + b + c + d + e, |a|, |a| + |b|, |a| + |b| + |c|, |a| + |b| + |c| + |d|;
      s[..i] == a && s[i..j] == b && s[j..k] == c && s[k..l] == d && s[l..] == e
  {
  }

  lemma {:induction false} FormulaSlices(p: string, d: Delim, c: string, q: string)
    ensures var s, i, w := p + Open(d) + c + Close(d) + q, |p|, Width(d);
      s[0..i] == p && s[i..i + w] == Open(d) && s[i + w..i + w + |c|] == c &&
      s[i + w + |c|..i + 2 * w + |c|] == Close(d) && s[i + 2 * w + |c|..] == q
  {
    FiveSlices(p, Open(d), c, Close(d), q);
    assert (p + Open(d) + c + Close(d) + q)[0..|p|] == (p + Open(d) + c + Close(d) + q)[..|p|];
  }

  /** A formula with a clean body between two stretches of plain text is
      read as that text, the formula and the text, whatever the order of
      the alternatives. */
  lemma {:induction false} FormulaBetweenText(p: string, d: Delim, c: string, q: string, alts: seq<Delim>)
    requires Plain(p) && Plain(q) && CleanBody(c, d) && d in alts
    ensures Segments(p + Open(d) + c + Close(d) + q, 0, alts) == TextOf(p) + ([MathSegment(d, c)] + TextOf(q))
  {
    var s := p + Open(d) + c + Close(d) + q;
    FormulaSlices(p, d, c, q);
    StepOverFormula(s, 0, |p|, d, c, alts);
    PlainTail(s, |p| + 2 * Width(d) + |c|, alts);
  }

  // ---- `string.replace(regex, callback)` with a global pattern

  /** Every match from `from` on replaced by `rewrite` applied to the
      matched text, the text between matches copied. */
  function ReplaceAll(s: string, from: nat, alts: seq<Delim>, rewrite: string -> string): string
    requires from <= |s|
    decreases |s| - from
  {
    match FindMatch(s, from, alts)
    case None => s[from..]
    case Some(m) => s[from..m.start] + (rewrite(s[m.start..m.end]) + ReplaceAll(s, m.end, alts, rewrite))
  }

  /** A callback that returns every match unchanged leaves the text as it
      was. */
  lemma {:induction false} ReplaceAllIdentity(s: string, from: nat, alts: seq<Delim>, rewrite: string -> string)
    requires from <= |s|
    requires forall t :: rewrite(t) == t
    decreases |s| - from
    ensures ReplaceAll(s, from, alts, rewrite) == s[from..]
  {
    match FindMatch(s, from, alts)
    case None =>
    case Some(m) =>
      ReplaceAllIdentity(s, m.end, alts, rewrite);
      SliceThree(s, from, m.start, m.end, |s|);
  }

  /** Segments put back together, each formula's source text passed
      through `rewrite`. */
  function Rewritten(segs: seq<Segment>, rewrite: string -> string): string {
    if segs == [] then []
    else
      (if segs[0].TextSegment? then segs[0].text else rewrite(Span(segs[0]))) + Rewritten(segs[1..], rewrite)
  }

  lemma {:induction false} RewrittenAppend(a: seq<Segment>, b: seq<Segment>, rewrite: string -> string)
    ensures Rewritten(a + b, rewrite) == Rewritten(a, rewrite) + Rewritten(b, rewrite)
  {
    if a == [] {
      assert a + b == b;
    } else {
      assert (a + b)[1..] == a[1..] + b;
      RewrittenAppend(a[1..], b, rewrite);
    }
  }

  lemma {:induction false} RewrittenCons(g: seq<Segment>, f: Segment, rest: seq<Segment>, rewrite: string -> string)
    requires f.MathSegment?
    ensures Rewritten(g + ([f] + rest), rewrite) == Rewritten(g, rewrite) + (rewrite(Span(f)) + Rewritten(rest, rewrite))
  {
    RewrittenAppend(g, [f] + rest, rewrite);
    assert ([f] + rest)[1..] == rest;
  }

  lemma {:induction false} RewrittenText(t: string, rewrite: string -> string)
    ensures Rewritten(TextOf(t), rewrite) == t
  {
  }

  /** Replacing every match is rewriting every formula of the scan. */
  lemma {:induction false} ReplaceAllSegments(s: string, from: nat, alts: seq<Delim>, rewrite: string -> string)
    requires from <= |s|
    decreases |s| - from
    ensures ReplaceAll(s, from, alts, rewrite) == Rewritten(Segments(s, from, alts), rewrite)
  {
    match FindMatch(s, from, alts)
    case None =>
    case Some(m) =>
      var d, i, e := m.delim, m.start, m.end;
      var f := MathSegment(d, s[i + Width(d)..e - Width(d)]);
      var g, rest := TextOf(s[from..i]), Segments(s, e, alts);
      var found, tail := s[i..e], ReplaceAll(s, e, alts, rewrite);
      assert ReplaceAll(s, from, alts, rewrite) == s[from..i] + (rewrite(found) + tail);
      assert Span(f) == found by {
        SpanText(s, i, e, d);
      }
      calc {
        Rewritten(Segments(s, from, alts), rewrite);
        { SegmentsStepAt(s, from, alts, d, i, e, f.formula); }
        Rewritten(g + ([f] + rest), rewrite);
        { RewrittenCons(g, f, rest, rewrite); }
        Rewritten(g, rewrite) + (rewrite(Span(f)) + Rewritten(rest, rewrite));
        { RewrittenText(s[from..i], rewrite);
          ReplaceAllSegments(s, e, alts, rewrite); }
        s[from..i] + (rewrite(found) + tail);
      }
  }

  /** One formula between plain text: the text is copied and the formula's
      source text is passed through `rewrite`. */
  lemma {:induction false} ReplaceOneFormula(p: string, d: Delim, c: string, q: string, alts: seq<Delim>, rewrite: string -> string)
    requires Plain(p) && Plain(q) && CleanBody(c, d) && d in alts
    ensures ReplaceAll(p + Open(d) + c + Close(d) + q, 0, alts, rewrite) == p + (rewrite(Open(d) + c + Close(d)) + q)
  {
    var s := p + Open(d) + c + Close(d) + q;
    var f := MathSegment(d, c);
    ReplaceAllSegments(s, 0, alts, rewrite);
    FormulaBetweenText(p, d, c, q, alts);
    RewrittenCons(TextOf(p), f, TextOf(q), rewrite);
    RewrittenText(p, rewrite);
    RewrittenText(q, rewrite);
  }
}
