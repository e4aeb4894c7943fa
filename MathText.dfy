/** The text side of the chat renderer: cutting a reply into text and
    formula parts, turning `**bold**` markup into nodes, and replacing a
    garbled theta-function formula by the identity it stands for. */
module MathText {
  import opened JsString
  import opened MathMarkup

  /** The `type` field of a part. */
  datatype PartType = Text | InlineMath | BlockMath

  /** One `{ type, content }` record of the list the splitter builds. */
  datatype Part = Part(kind: PartType, content: string)

  /** `$$…$$` and `\[…\]` are displayed as blocks, `$…$` and `\(…\)`
      inline. */
  function TypeOf(d: Delim): PartType {
    if d == DoubleDollar || d == Bracket then BlockMath else InlineMath
  }

  function PartOf(seg: Segment): Part {
    match seg
    case TextSegment(t) => Part(Text, t)
    case MathSegment(d, f) => Part(TypeOf(d), f)
  }

  function PartsOf(segs: seq<Segment>): (r: seq<Part>)
    ensures |r| == |segs|
  {
    if segs == [] then [] else [PartOf(segs[0])] + PartsOf(segs[1..])
  }

  lemma {:induction false} PartsOfAppend(a: seq<Segment>, b: seq<Segment>)
    ensures PartsOf(a + b) == PartsOf(a) + PartsOf(b)
  {
    if a == [] {
      assert a + b == b;
    } else {
      assert (a + b)[1..] == a[1..] + b;
      PartsOfAppend(a[1..], b);
    }
  }

  /** One scan step seen from the loop: the parts collected so far, then
      the gap (when non-empty) and the formula, then the rest of the scan. */
  lemma {:induction false} PartsOfCons(done: seq<Part>, g: seq<Segment>, f: Segment, rest: seq<Segment>)
    ensures done + PartsOf(g + ([f] + rest)) == (done + PartsOf(g) + [PartOf(f)]) + PartsOf(rest)
  {
    PartsOfAppend(g, [f] + rest);
    assert ([f] + rest)[1..] == rest;
  }

  /** The part for a run of text: none when the run is empty. */
  function TextPart(t: string): seq<Part> {
    if t == [] then [] else [Part(Text, t)]
  }

  /** A gap becomes one text part, or none when it is empty (the splitter's
      `match.index > lastEnd` test). */
  lemma {:induction false} GapParts(t: string)
    ensures PartsOf(TextOf(t)) == TextPart(t)
  {
  }

  /** Pushing the gap only when it is non-empty appends its text part. */
  lemma {:induction false} GapPartAppend(done: seq<Part>, text: string, a: nat, b: nat)
    requires a <= b <= |text|
    ensures (if b > a then done + [Part(Text, Substring(text, a, b))] else done) ==
      done + TextPart(text[a..b])
  {
    if b == a {
      assert text[a..b] == [];
    }
  }

  lemma {:induction false} PartsOfStep(text: string, from: nat, m: Match, done: seq<Part>)
    requires from <= |text| && FindMatch(text, from, TextMathAlts) == Some(m)
    ensures done + PartsOf(Segments(text, from, TextMathAlts)) ==
      (done + TextPart(text[from..m.start]) +
       [Part(TypeOf(m.delim), text[m.start + Width(m.delim)..m.end - Width(m.delim)])]) +
      PartsOf(Segments(text, m.end, TextMathAlts))
  {
    var f := MathSegment(m.delim, text[m.start + Width(m.delim)..m.end - Width(m.delim)]);
    var g, rest := TextOf(text[from..m.start]), Segments(text, m.end, TextMathAlts);
    calc {
      done + PartsOf(Segments(text, from, TextMathAlts));
      { SegmentsStep(text, from, TextMathAlts, m); }
      done + PartsOf(g + ([f] + rest));
      { PartsOfCons(done, g, f, rest); }
      (done + PartsOf(g) + [PartOf(f)]) + PartsOf(rest);
      { GapParts(text[from..m.start]); }
      (done + TextPart(text[from..m.start]) + [PartOf(f)]) + PartsOf(rest);
    }
  }


  /** The scan ends with the text after the last formula. */
  lemma {:induction false} PartsOfTail(text: string, from: nat)
    requires from <= |text| && FindMatch(text, from, TextMathAlts).None?
    ensures PartsOf(Segments(text, from, TextMathAlts)) == if from < |text| then [Part(Text, text[from..])] else []
  {
  }

  /** The formula body of a match: the matched text with its delimiters cut
      off, as each branch of the splitter does with `substring`. */
  method FormulaOf(text: string, m: Match) returns (content: string)
    requires IsSpan(text, m.start, m.end, m.delim)
    ensures content == text[m.start + Width(m.delim)..m.end - Width(m.delim)]
  {
    var matched := text[m.start..m.end];
    var w := Width(m.delim);
    ghost var body := text[m.start + w..m.end - w];
    assert matched[w..|matched| - w] == body by {
      forall k | 0 <= k < |body| ensures matched[w + k] == body[k] {
      }
    }
    match m.delim
    case DoubleDollar =>
      content := Substring(matched, 2, |matched| - 2);
    case Dollar =>
      content := Substring(matched, 1, |matched| - 1);
    case Paren =>
      content := Substring(matched, 2, |matched| - 2);
    case Bracket =>
      content := Substring(matched, 2, |matched| - 2);
  }

  /** Scans `text` with the four-alternative formula pattern and returns the
      text between formulas and the formulas with their delimiters removed,
      in order. */
  method SplitTextAndMath(text: string) returns (result: seq<Part>)
    ensures result == PartsOf(Segments(text, 0, TextMathAlts))
  {
    ghost var total := PartsOf(Segments(text, 0, TextMathAlts));
    result := [];
    var lastEnd := 0;
    var found := FindMatch(text, lastEnd, TextMathAlts);
    while found.Some?
      invariant lastEnd <= |text|
      invariant found == FindMatch(text, lastEnd, TextMathAlts)
      invariant result + PartsOf(Segments(text, lastEnd, TextMathAlts)) == total
      decreases |text| - lastEnd
    {
      var m := found.value;
      PartsOfStep(text, lastEnd, m, result);
      GapPartAppend(result, text, lastEnd, m.start);
      if m.start > lastEnd {
        result := result + [Part(Text, Substring(text, lastEnd, m.start))];
      }
      var content := FormulaOf(text, m);
      result := result + [Part(TypeOf(m.delim), content)];
      lastEnd := m.end;
      found := FindMatch(text, lastEnd, TextMathAlts);
    }
    PartsOfTail(text, lastEnd);
    if lastEnd < |text| {
      assert text[lastEnd..|text|] == text[lastEnd..];
      result := result + [Part(Text, Substring(text, lastEnd, |text|))];
    } else {
      assert result + [] == result;
    }
  }

  // ---- `**bold**` markup: `text.split(/(\*\*[^*]+\*\*)/g)` and the render rule

  /** A rendered piece of text: `<strong>` or `<span>`. */
  datatype Node = Strong(text: string) | Normal(text: string)

  /** `s[q..e]` matches `\*\*[^*]+\*\*`: two stars, at least one character
      other than a star, two stars. */
  predicate IsBold(s: string, q: int, e: int) {
    0 <= q && q + 4 < e <= |s| && PairAt(s, q, '*', '*') && PairAt(s, e - 2, '*', '*') &&
    forall k :: q + 2 <= k < e - 2 ==> s[k] != '*'
  }

  /** The end of the run of characters other than `*` starting at `j`. */
  function RunEnd(s: string, j: nat): (r: nat)
    requires j <= |s|
    decreases |s| - j
    ensures j <= r <= |s| && (r < |s| ==> s[r] == '*')
    ensures forall k :: j <= k < r ==> s[k] != '*'
  {
    if j == |s| || s[j] == '*' then j else RunEnd(s, j + 1)
  }

  /** The end of the bold match at `q`, if one starts there: the run after
      the opening stars is taken whole (`[^*]+` is greedy and cannot give
      back a star), then two stars must follow. */
  function BoldAt(s: string, q: nat): (r: Option<nat>)
    requires q <= |s|
    ensures r.Some? ==> IsBold(s, q, r.value)
  {
    if PairAt(s, q, '*', '*') then
      var r := RunEnd(s, q + 2);
      if r > q + 2 && PairAt(s, r, '*', '*') then Some(r + 2) else None
    else None
  }

  /** A bold match at `q` is found exactly when one starts there, and it is
      the only one starting there. */
  lemma {:induction false} BoldAtExact(s: string, q: nat, e: int)
    requires q <= |s|
    ensures BoldAt(s, q) == Some(e) <==> IsBold(s, q, e)
  {
    if IsBold(s, q, e) {
      assert s[e - 2] == '*';
      var r := RunEnd(s, q + 2);
      assert r == e - 2;
    }
  }

  /** The first position at or after `q` where a bold match starts. */
  function FindBold(s: string, q: nat): (r: Option<nat>)
    requires q <= |s|
    decreases |s| - q
    ensures r.Some? ==> q <= r.value <= |s| && BoldAt(s, r.value).Some?
    ensures r.Some? ==> forall k :: q <= k < r.value ==> BoldAt(s, k).None?
    ensures r.None? ==> forall k :: q <= k <= |s| ==> BoldAt(s, k).None?
  {
    if BoldAt(s, q).Some? then Some(q)
    else if q == |s| then None
    else FindBold(s, q + 1)
  }

  /** `s[p..].split(...)`: the text before each match, the match itself
      (the captured separator), and finally the text after the last match. */
  function SplitBold(s: string, p: nat): (r: seq<string>)
    requires p <= |s|
    decreases |s| - p
    ensures |r| % 2 == 1
  {
    match FindBold(s, p)
    case None => [s[p..]]
    case Some(q) =>
      var e := BoldAt(s, q).value;
      [s[p..q], s[q..e]] + SplitBold(s, e)
  }

  function Join(pieces: seq<string>): string {
    if pieces == [] then [] else pieces[0] + Join(pieces[1..])
  }

  /** No `*` anywhere in `t`. */
  predicate StarFree(t: string) {
    forall k :: 0 <= k < |t| ==> t[k] != '*'
  }

  /** A separator piece: `**`, a star-free non-empty body, `**`. */
  predicate BoldPiece(t: string) {
    IsBold(t, 0, |t|)
  }

  /** A text piece: no bold match anywhere inside it. */
  ghost predicate NoBold(t: string) {
    forall q, e :: !IsBold(t, q, e)
  }

  /** Text pieces and separators alternate, starting and ending with text. */
  ghost predicate Alternates(pieces: seq<string>)
    decreases |pieces|
  {
    if |pieces| == 1 then NoBold(pieces[0])
    else |pieces| >= 3 && NoBold(pieces[0]) && BoldPiece(pieces[1]) && Alternates(pieces[2..])
  }

  lemma {:induction false} JoinStep(a: string, b: string, rest: seq<string>)
    ensures Join([a, b] + rest) == a + b + Join(rest)
  {
    assert ([a, b] + rest)[1..] == [b] + rest;
    assert ([b] + rest)[1..] == rest;
  }

  /** Joining the pieces gives back the split text. */
  lemma {:induction false} SplitBoldJoin(s: string, p: nat)
    requires p <= |s|
    decreases |s| - p
    ensures Join(SplitBold(s, p)) == s[p..]
  {
    match FindBold(s, p)
    case None =>
      assert Join([s[p..]]) == s[p..] + Join([]);
    case Some(q) =>
      var e := BoldAt(s, q).value;
      SplitBoldJoin(s, e);
      JoinStep(s[p..q], s[q..e], SplitBold(s, e));
      SplitThree(s, p, q, e);
  }

  /** A bold match inside a piece of `s` is a bold match of `s`. */
  lemma {:induction false} BoldInPiece(s: string, p: nat, u: nat, q: int, e: int)
    requires p <= u <= |s| && IsBold(s[p..u], q, e)
    ensures IsBold(s, p + q, p + e)
  {
    var t := s[p..u];
    assert s[p + q] == t[q] && s[p + q + 1] == t[q + 1];
    assert s[p + e - 2] == t[e - 2] && s[p + e - 1] == t[e - 1];
    forall k | p + q + 2 <= k < p + e - 2 ensures s[k] != '*' {
      assert s[k] == t[k - p];
    }
  }

  /** Text before the first match holds no match. */
  lemma {:induction false} NoBoldBefore(s: string, p: nat, u: nat)
    requires p <= u <= |s| && forall k :: p <= k < u ==> BoldAt(s, k).None?
    ensures NoBold(s[p..u])
  {
    forall q, e | IsBold(s[p..u], q, e) ensures false {
      BoldInPiece(s, p, u, q, e);
      BoldAtExact(s, p + q, p + e);
    }
  }

  /** The split alternates text pieces free of bold markup with bold
      separators, starting and ending with text. */
  lemma {:induction false} SplitBoldAlternates(s: string, p: nat)
    requires p <= |s|
    decreases |s| - p
    ensures Alternates(SplitBold(s, p))
  {
    match FindBold(s, p)
    case None =>
      NoBoldBefore(s, p, |s|);
      assert s[p..|s|] == s[p..];
    case Some(q) =>
      var e := BoldAt(s, q).value;
      SplitBoldAlternates(s, e);
      NoBoldBefore(s, p, q);
      SeparatorIsPiece(s, q, e);
      AlternatesCons(s[p..q], s[q..e], SplitBold(s, e));
  }

  /** A bold match cut out of the text is a bold piece on its own. */
  lemma {:induction false} SeparatorIsPiece(s: string, q: nat, e: nat)
    requires IsBold(s, q, e)
    ensures BoldPiece(s[q..e])
  {
    forall k | 2 <= k < e - q - 2 ensures s[q..e][k] != '*' {
      assert s[q..e][k] == s[q + k];
    }
  }

  lemma {:induction false} AlternatesCons(a: string, b: string, rest: seq<string>)
    requires NoBold(a) && BoldPiece(b) && Alternates(rest)
    ensures Alternates([a, b] + rest)
  {
    var r := [a, b] + rest;
    assert r[0] == a && r[1] == b && r[2..] == rest;
  }

  /** The render rule applied to each piece: a piece that starts and ends
      with `**` becomes `<strong>` with `substring(2, length - 2)`, anything
      else a `<span>`. */
  function RenderPiece(part: string): Node {
    if StartsWith(part, "**") && EndsWith(part, "**") then
      Strong(Substring(part, 2, |part| - 2))
    else Normal(part)
  }

  function RenderAll(parts: seq<string>): (r: seq<Node>)
    ensures |r| == |parts|
  {
    if parts == [] then [] else [RenderPiece(parts[0])] + RenderAll(parts[1..])
  }

  /** `processBoldText`: the rendered pieces of the split text. */
  function ProcessBoldText(text: string): (r: seq<Node>)
    ensures |r| % 2 == 1
  {
    RenderAll(SplitBold(text, 0))
  }

  /** The markdown a node stands for. */
  function Markup(n: Node): string {
    match n
    case Strong(t) => "**" + t + "**"
    case Normal(t) => t
  }

  function MarkupAll(nodes: seq<Node>): string {
    if nodes == [] then [] else Markup(nodes[0]) + MarkupAll(nodes[1..])
  }

  /** A separator renders as `<strong>` around its star-free body. */
  lemma {:induction false} RenderBoldPiece(t: string)
    requires BoldPiece(t)
    ensures RenderPiece(t) == Strong(t[2..|t| - 2])
    ensures t[2..|t| - 2] != [] && StarFree(t[2..|t| - 2])
    ensures Markup(RenderPiece(t)) == t
  {
    assert t[..2] == "**" && t[|t| - 2..] == "**";
    assert t == t[..2] + t[2..|t| - 2] + t[|t| - 2..];
  }

  /** Every piece other than `**` and `***` is rendered faithfully: putting
      the stars back around a `<strong>` gives the piece again. */
  lemma {:induction false} RenderPieceRoundTrip(part: string)
    requires part != "**" && part != "***"
    ensures Markup(RenderPiece(part)) == part
  {
    if StartsWith(part, "**") && EndsWith(part, "**") {
      assert part[..2] == "**" && part[|part| - 2..] == "**";
      assert part == part[..2] + part[2..|part| - 2] + part[|part| - 2..];
    }
  }

  /** A piece that is just `**` or `***` also starts and ends with `**`, and
      `substring` swaps its reversed arguments: `**` renders as a bold `**`
      and `***` as a bold `*`. */
  lemma {:induction false} RenderShortMarkers()
    ensures RenderPiece("**") == Strong("**")
    ensures RenderPiece("***") == Strong("*")
  {
    assert StartsWith("***", "**") && EndsWith("***", "**");
  }

  lemma {:induction false} MarkupRenderAll(parts: seq<string>)
    requires forall k :: 0 <= k < |parts| ==> parts[k] != "**" && parts[k] != "***"
    ensures MarkupAll(RenderAll(parts)) == Join(parts)
  {
    if parts != [] {
      RenderPieceRoundTrip(parts[0]);
      MarkupRenderAll(parts[1..]);
    }
  }

  /** Putting the stars back around every `<strong>` gives the text again,
      unless the split produced a piece that is just `**` or `***`. */
  lemma {:induction false} ProcessBoldRoundTrip(text: string)
    requires forall k :: 0 <= k < |SplitBold(text, 0)| ==> SplitBold(text, 0)[k] != "**" && SplitBold(text, 0)[k] != "***"
    ensures MarkupAll(ProcessBoldText(text)) == text
  {
    MarkupRenderAll(SplitBold(text, 0));
    SplitBoldJoin(text, 0);
  }

  /** A single bold match with no star before or after it splits the
      text into the text before, the match and the text after. */
  lemma {:induction false} SplitOneBoldAt(s: string, i: nat, e: nat)
    requires i <= e <= |s| && StarFree(s[..i]) && BoldPiece(s[i..e]) && StarFree(s[e..])
    ensures SplitBold(s, 0) == [s[..i], s[i..e], s[e..]]
  {
    forall k | 0 <= k < i ensures s[k] != '*' {
      assert s[k] == s[..i][k];
    }
    forall k | e <= k < |s| ensures s[k] != '*' {
      assert s[k] == s[e..][k - e];
    }
    BoldSlice(s, i, e);
    BoldAtExact(s, i, e);
    FindBoldSkip(s, 0, i);
    FindBoldNone(s, e);
    assert SplitBold(s, e) == [s[e..]];
    assert s[0..i] == s[..i];
  }

  /** A separator cut out of `s` is a bold match of `s`. */
  lemma {:induction false} BoldSlice(s: string, i: nat, e: nat)
    requires i <= e <= |s| && BoldPiece(s[i..e])
    ensures IsBold(s, i, e)
  {
    var t := s[i..e];
    assert s[i] == t[0] && s[i + 1] == t[1] && s[e - 2] == t[|t| - 2] && s[e - 1] == t[|t| - 1];
    forall k | i + 2 <= k < e - 2 ensures s[k] != '*' {
      assert s[k] == t[k - i];
    }
  }

  /** `**b**` with a star-free non-empty body is a separator. */
  lemma {:induction false} WrappedIsBold(b: string)
    requires StarFree(b) && b != []
    ensures BoldPiece("**" + b + "**")
  {
    var t := "**" + b + "**";
    forall k | 2 <= k < |t| - 2 ensures t[k] != '*' {
      assert t[k] == b[k - 2];
    }
  }

  lemma {:induction false} Regroup(p: string, b: string, q: string)
    ensures p + "**" + b + "**" + q == p + ("**" + b + "**") + q
  {
  }

  lemma {:induction false} ThreeSlices(a: string, b: string, c: string)
    ensures var s := a + b + c;
      s[..|a|] == a && s[|a|..|a| + |b|] == b && s[|a| + |b|..] == c
  {
  }

  /** One bold run between star-free text splits into three pieces. */
  lemma {:induction false} SplitOneBold(p: string, b: string, q: string)
    requires StarFree(p) && StarFree(q) && StarFree(b) && b != []
    ensures SplitBold(p + "**" + b + "**" + q, 0) == [p, "**" + b + "**", q]
  {
    var t := "**" + b + "**";
    Regroup(p, b, q);
    ThreeSlices(p, t, q);
    WrappedIsBold(b);
    SplitOneBoldAt(p + t + q, |p|, |p| + |t|);
  }

  /** A star-free piece renders as plain text. */
  lemma {:induction false} RenderStarFree(t: string)
    requires StarFree(t)
    ensures RenderPiece(t) == Normal(t)
  {
    if |t| >= 2 {
      assert t[..2][0] == t[0];
    }
  }

  /** Any piece `**b**` renders as `<strong>` around `b`, whether or not it
      is a bold match: `**a*b**` left as text and `****` render so too. */
  lemma {:induction false} RenderWrapped(b: string)
    ensures RenderPiece("**" + b + "**") == Strong(b)
  {
    var t := "**" + b + "**";
    assert StartsWith(t, "**") by { assert t[..2] == "**"; }
    assert EndsWith(t, "**") by { assert t[|t| - 2..] == "**"; }
    assert t[2..|t| - 2] == b;
  }

  lemma {:induction false} RenderThree(x: string, y: string, z: string)
    ensures RenderAll([x, y, z]) == [RenderPiece(x), RenderPiece(y), RenderPiece(z)]
  {
    assert [x, y, z][1..] == [y, z] && [y, z][1..] == [z];
    assert RenderAll([z]) == [RenderPiece(z)];
    assert RenderAll([y, z]) == [RenderPiece(y), RenderPiece(z)];
  }

  /** One bold run between star-free text renders as text, `<strong>` and
      text. */
  lemma {:induction false} BoldBetweenText(p: string, b: string, q: string)
    requires StarFree(p) && StarFree(q) && StarFree(b) && b != []
    ensures ProcessBoldText(p + "**" + b + "**" + q) == [Normal(p), Strong(b), Normal(q)]
  {
    SplitOneBold(p, b, q);
    RenderThree(p, "**" + b + "**", q);
    RenderWrapped(b);
    RenderStarFree(p);
    RenderStarFree(q);
  }

  /** The search passes over positions where no bold match starts. */
  lemma {:induction false} FindBoldSkip(s: string, from: nat, stop: nat)
    requires from <= stop <= |s| && BoldAt(s, stop).Some?
    requires forall k :: from <= k < stop ==> BoldAt(s, k).None?
    decreases stop - from
    ensures FindBold(s, from) == Some(stop)
  {
    if from < stop {
      FindBoldSkip(s, from + 1, stop);
    }
  }

  /** No match at or after `from` means the search finds nothing. */
  lemma {:induction false} FindBoldNone(s: string, from: nat)
    requires from <= |s| && forall k :: from <= k <= |s| ==> BoldAt(s, k).None?
    decreases |s| - from
    ensures FindBold(s, from).None?
  {
    if from < |s| {
      FindBoldNone(s, from + 1);
    }
  }

  // ---- what the splitter's result looks like

  /** Every part has non-empty content, and a text part is never followed
      by another text part. */
  predicate PartsShaped(parts: seq<Part>) {
    (forall k :: 0 <= k < |parts| ==> parts[k].content != []) &&
    (forall k :: 0 <= k < |parts| - 1 && parts[k].kind == Text ==> parts[k + 1].kind != Text)
  }

  lemma {:induction false} PartsOfShaped(segs: seq<Segment>, alts: seq<Delim>)
    requires WellFormed(segs, alts)
    decreases |segs|
    ensures PartsShaped(PartsOf(segs))
  {
    if segs != [] {
      PartsOfShaped(segs[1..], alts);
      var r := PartsOf(segs);
      assert r[1..] == PartsOf(segs[1..]);
      forall k | 0 <= k < |r| ensures r[k].content != [] {
        if k > 0 { assert r[k] == r[1..][k - 1]; }
      }
      forall k | 0 <= k < |r| - 1 && r[k].kind == Text ensures r[k + 1].kind != Text {
        assert r[k + 1] == r[1..][k];
        if k > 0 { assert r[k] == r[1..][k - 1]; }
      }
    }
  }

  /** The splitter never returns an empty part or two text parts in a row. */
  lemma {:induction false} SplitTextAndMathShaped(text: string)
    ensures PartsShaped(PartsOf(Segments(text, 0, TextMathAlts)))
  {
    SegmentsWellFormed(text, 0, TextMathAlts);
    PartsOfShaped(Segments(text, 0, TextMathAlts), TextMathAlts);
  }

  /** One formula between two runs of plain text gives a text part, the
      formula's part (block or inline after its delimiters) and a text part;
      an empty run gives no part. */
  lemma {:induction false} FormulaBetweenTextParts(p: string, d: Delim, c: string, q: string)
    requires Plain(p) && Plain(q) && CleanBody(c, d) && d in TextMathAlts
    ensures PartsOf(Segments(p + Open(d) + c + Close(d) + q, 0, TextMathAlts)) ==
      TextPart(p) + ([Part(TypeOf(d), c)] + TextPart(q))
  {
    var f := MathSegment(d, c);
    FormulaBetweenText(p, d, c, q, TextMathAlts);
    calc {
      PartsOf(TextOf(p) + ([f] + TextOf(q)));
      { PartsOfAppend(TextOf(p), [f] + TextOf(q)); }
      PartsOf(TextOf(p)) + PartsOf([f] + TextOf(q));
      { assert ([f] + TextOf(q))[1..] == TextOf(q); }
      PartsOf(TextOf(p)) + ([PartOf(f)] + PartsOf(TextOf(q)));
      { GapParts(p); GapParts(q); }
      TextPart(p) + ([Part(TypeOf(d), c)] + TextPart(q));
    }
  }

  /** Empty text gives no parts. */
  lemma {:induction false} EmptyTextParts()
    ensures PartsOf(Segments("", 0, TextMathAlts)) == []
  {
    PlainTail("", 0, TextMathAlts);
  }

  /** A text that is one formula from end to end gives exactly that
      formula's part. */
  lemma {:induction false} OneFormulaParts(s: string, d: Delim)
    requires d in TextMathAlts && IsSpan(s, 0, |s|, d)
    requires forall e :: e < |s| ==> !IsSpan(s, 0, e, d)
    ensures PartsOf(Segments(s, 0, TextMathAlts)) == [Part(TypeOf(d), s[Width(d)..|s| - Width(d)])]
  {
    WholeFormula(s, d, TextMathAlts);
  }

  /** `$$…$$` around a body with no `$$` pair, the closing pair included,
      is the shortest block span at the start. */
  lemma {:induction false} ShortestBlock(s: string)
    requires |s| >= 5 && s[0] == '$' && s[1] == '$' && s[|s| - 2] == '$' && s[|s| - 1] == '$'
    requires forall k :: 2 <= k < |s| - 2 ==> !PairAt(s, k, '$', '$')
    ensures IsSpan(s, 0, |s|, DoubleDollar)
    ensures forall e :: e < |s| ==> !IsSpan(s, 0, e, DoubleDollar)
  {
    forall e | e < |s| ensures !IsSpan(s, 0, e, DoubleDollar) {
      if 4 < e {
        assert !PairAt(s, e - 2, '$', '$');
      }
    }
  }

  /** The shape of `$$a$b$$` when neither `a` nor `b` holds a `$`: the
      delimiters at both ends, no `$$` pair in between, and `a$b` as body. */
  lemma {:induction false} DollarInBlockShape(s: string, a: string, b: string)
    requires s == "$$" + a + "$" + b + "$$" && b != []
    requires forall k :: 0 <= k < |a| ==> a[k] != '$'
    requires forall k :: 0 <= k < |b| ==> b[k] != '$'
    ensures |s| >= 5 && s[0] == '$' && s[1] == '$' && s[|s| - 2] == '$' && s[|s| - 1] == '$'
    ensures forall k :: 2 <= k < |s| - 2 ==> !PairAt(s, k, '$', '$')
    ensures s[2..|s| - 2] == a + "$" + b
  {
    var j := 2 + |a|;
    forall k | 2 <= k < |s| - 2 ensures !PairAt(s, k, '$', '$') {
      if k < j {
        assert s[k] == a[k - 2];
      } else if k == j {
        assert s[k + 1] == b[0];
      } else {
        assert s[k] == b[k - j - 1];
      }
    }
    assert s[2..|s| - 2] == a + "$" + b;
  }

  /** A lone `$` inside `$$…$$` does not end the block formula: only a
      `$$` pair does. */
  lemma {:induction false} DollarInBlockParts(a: string, b: string)
    requires b != []
    requires forall k :: 0 <= k < |a| ==> a[k] != '$'
    requires forall k :: 0 <= k < |b| ==> b[k] != '$'
    ensures PartsOf(Segments("$$" + a + "$" + b + "$$", 0, TextMathAlts)) == [Part(BlockMath, a + "$" + b)]
  {
    var s := "$$" + a + "$" + b + "$$";
    DollarInBlockShape(s, a, b);
    ShortestBlock(s);
    OneFormulaParts(s, DoubleDollar);
  }

  /** An unterminated `$` stays text. */
  lemma {:induction false} LoneDollarParts(p: string, q: string)
    requires Plain(p) && Plain(q)
    ensures PartsOf(Segments(p + "$" + q, 0, TextMathAlts)) == [Part(Text, p + "$" + q)]
  {
    LoneDollar(p, q, TextMathAlts);
  }

  /** A formula with plain text on both sides: exactly three parts. */
  lemma {:induction false} FormulaInsideTextParts(p: string, d: Delim, c: string, q: string)
    requires p != [] && q != []
    requires Plain(p) && Plain(q) && CleanBody(c, d) && d in TextMathAlts
    ensures PartsOf(Segments(p + Open(d) + c + Close(d) + q, 0, TextMathAlts)) ==
      [Part(Text, p), Part(TypeOf(d), c), Part(Text, q)]
  {
    FormulaBetweenTextParts(p, d, c, q);
    assert TextPart(p) == [Part(Text, p)] && TextPart(q) == [Part(Text, q)];
  }

  /** A `\[…\]` formula is a block part. */
  lemma {:induction false} BracketFormulaParts()
    ensures PartsOf(Segments("see " + "\\[" + "a+b" + "\\]", 0, TextMathAlts)) ==
      [Part(Text, "see "), Part(BlockMath, "a+b")]
  {
    assert "see " + "\\[" + "a+b" + "\\]" == "see " + Open(Bracket) + "a+b" + Close(Bracket) + "";
    FormulaBetweenTextParts("see ", Bracket, "a+b", "");
  }

  /** `$$x$$` is one block formula: the inline alternative cannot match
      where `$$` starts, since its body never begins with `$`. */
  lemma {:induction false} DoubleDollarParts()
    ensures PartsOf(Segments("$$" + "x" + "$$", 0, TextMathAlts)) == [Part(BlockMath, "x")]
  {
    assert "$$" + "x" + "$$" == "" + Open(DoubleDollar) + "x" + Close(DoubleDollar) + "";
    FormulaBetweenTextParts("", DoubleDollar, "x", "");
  }

  // ---- `normalizeJacobiTheta`

  /** The formula names the theta function, or looks like a garbled
      rendering of its series and product (`sum`, `prod`, `*n*=`, `*q*`). */
  predicate JacobiRequest(f: string) {
    Contains(f, "ヤコビのθ関数") ||
    (Contains(f, "sum") && Contains(f, "prod") && Contains(f, "*n*=") && Contains(f, "*q*"))
  }

  /** The identity itself is not taken for a request: it holds no `ヤ` and
      no `*`. */
  lemma {:induction false} IdentityNotRequest()
    ensures !JacobiRequest(ThetaIdentity)
  {
    IdentityAscii();
    if Contains(ThetaIdentity, "ヤコビのθ関数") {
      ContainsChar(ThetaIdentity, "ヤコビのθ関数", 0);
    }
    if Contains(ThetaIdentity, "*q*") {
      ContainsChar(ThetaIdentity, "*q*", 0);
    }
  }

  /** A request is replaced by the identity; anything else is kept. The
      result is never itself a request. */
  function NormalizeJacobiTheta(formula: string): (r: string)
    ensures r == formula || r == ThetaIdentity
    ensures !JacobiRequest(r)
  {
    IdentityNotRequest();
    if JacobiRequest(formula) then ThetaIdentity else formula
  }

  /** Normalizing twice is normalizing once. */
  lemma {:induction false} NormalizeIdempotent(formula: string)
    ensures NormalizeJacobiTheta(NormalizeJacobiTheta(formula)) == NormalizeJacobiTheta(formula)
  {
  }

  /** A formula changes exactly when it is a request. */
  lemma {:induction false} NormalizeChanges(formula: string)
    ensures NormalizeJacobiTheta(formula) != formula <==> JacobiRequest(formula) && formula != ThetaIdentity
  {
  }
}
