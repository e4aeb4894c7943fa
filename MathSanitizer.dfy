/** The sanitizer applied to formulas in a reply before it is shown: a
    theta-function request becomes a fixed explanation with the identity,
    an overly complex formula becomes a fixed notice, and anything else is
    kept; the reply-wide pass rewrites every `$$…$$` and `$…$` formula this
    way; a particular kind of question gets a canned answer. */
module MathSanitizer {
  import opened JsString
  import opened MathMarkup

  // ---- `sanitizeMathFormula`

  /** The formula mentions the theta function identity by one of its four
      recognised names. */
  predicate ThetaRequest(f: string) {
    Contains(f, "ヤコビのθ関数") || Contains(f, "ヤコビの\\theta関数") ||
    Contains(f, "θ関数恒等式") || Contains(f, "\\theta関数恒等式")
  }

  /** The formula is too complex to render: more than 10 opening or closing
      braces, more than 500 UTF-16 code units, more than 20 subscripts or
      superscripts, or an infinite sum or product. */
  predicate TooComplex(f: string) {
    CountChar(f, '{') > 10 || CountChar(f, '}') > 10 ||
    Utf16Length(f) > 500 ||
    CountChar(f, '_') > 20 || CountChar(f, '^') > 20 ||
    ((Contains(f, "\\sum") || Contains(f, "\\prod")) && (Contains(f, "\\infty") || Contains(f, "∞")))
  }

  const ReplacementHeading: string := "ヤコビのθ関数恒等式は以下のように表されます：\n\n"

  /** The trimmed explanation returned for a theta-function request. */
  const Replacement: string := ReplacementHeading + "$$" + ThetaIdentity + "$$"

  /** The notice returned for a formula that is too complex. */
  const Placeholder: string := "複雑な数式を検出しました。簡略化された形式で表示します。"

  /** A request wins over complexity; a formula that is neither is kept. */
  function SanitizeMathFormula(formula: string): (r: string)
    ensures r == formula || r == Replacement || r == Placeholder
    ensures r == Replacement <==> ThetaRequest(formula)
    ensures !ThetaRequest(formula) && TooComplex(formula) ==> r == Placeholder
  {
    ReplacementIsRequest();
    assert Replacement != Placeholder by { assert Replacement[0] != Placeholder[0]; }
    if ThetaRequest(formula) then Replacement
    else if TooComplex(formula) then Placeholder
    else formula
  }

  /** The explanation names the theta function itself. */
  lemma {:induction false} ReplacementIsRequest()
    ensures ThetaRequest(Replacement)
  {
    var t := "ヤコビのθ関数";
    assert ReplacementHeading[0..|t|] == t;
    assert Replacement[0..|t|] == ReplacementHeading[0..|t|];
    assert OccursAt(Replacement, t, 0);
  }

  /** No character of the notice is one the two tests look for. */
  predicate Quiet(s: string) {
    forall k :: 0 <= k < |s| ==>
      s[k] != 'ヤ' && s[k] != 'θ' && s[k] != '\\' && s[k] != '∞' &&
      s[k] != '{' && s[k] != '}' && s[k] != '_' && s[k] != '^'
  }

  /** A string with none of the looked-for characters and at most 500 code
      units is neither a request nor too complex. */
  lemma {:induction false} QuietKept(s: string)
    requires Quiet(s) && Utf16Length(s) <= 500
    ensures !ThetaRequest(s) && !TooComplex(s)
  {
    MissingChar(s, "ヤコビのθ関数", 0);
    MissingChar(s, "ヤコビの\\theta関数", 0);
    MissingChar(s, "θ関数恒等式", 0);
    MissingChar(s, "\\theta関数恒等式", 0);
    MissingChar(s, "\\sum", 0);
    MissingChar(s, "\\prod", 0);
  }

  /** The notice is neither a request nor too complex. */
  lemma {:induction false} PlaceholderKept()
    ensures !ThetaRequest(Placeholder) && !TooComplex(Placeholder)
  {
    assert Quiet(Placeholder);
    assert |Placeholder| < 250;
    QuietKept(Placeholder);
  }

  /** Sanitizing twice is sanitizing once: the explanation is kept because
      it is itself a request, the notice because it is plain. */
  lemma {:induction false} SanitizeIdempotent(formula: string)
    ensures SanitizeMathFormula(SanitizeMathFormula(formula)) == SanitizeMathFormula(formula)
  {
    ReplacementIsRequest();
    PlaceholderKept();
  }

  /** A formula comes back unchanged exactly when it is the explanation
      itself or neither a request nor too complex. */
  lemma {:induction false} SanitizeKeeps(formula: string)
    ensures SanitizeMathFormula(formula) == formula <==>
      formula == Replacement || (!ThetaRequest(formula) && !TooComplex(formula))
  {
    ReplacementIsRequest();
    PlaceholderKept();
  }

  /** The identity names an infinite sum. */
  lemma {:induction false} IdentityMentionsInfiniteSum()
    ensures Contains(ThetaIdentity, "\\sum") && Contains(ThetaIdentity, "\\infty")
  {
    assert ThetaSeries[0] == '\\' && ThetaSeries[1] == 's' && ThetaSeries[2] == 'u' && ThetaSeries[3] == 'm';
    assert ThetaSeries[0..4] == "\\sum";
    assert ThetaSeries[9] == '\\' && ThetaSeries[10] == 'i' && ThetaSeries[11] == 'n' &&
      ThetaSeries[12] == 'f' && ThetaSeries[13] == 't' && ThetaSeries[14] == 'y';
    assert ThetaSeries[9..15] == "\\infty";
    assert ThetaIdentity[0..4] == ThetaSeries[0..4];
    assert ThetaIdentity[9..15] == ThetaSeries[9..15];
    assert OccursAt(ThetaIdentity, "\\sum", 0);
    assert OccursAt(ThetaIdentity, "\\infty", 9);
  }

  /** The identity, being ASCII, names none of the requests. */
  lemma {:induction false} IdentityNotRequest()
    ensures !ThetaRequest(ThetaIdentity)
  {
    IdentityAscii();
    MissingChar(ThetaIdentity, "ヤコビのθ関数", 0);
    MissingChar(ThetaIdentity, "ヤコビの\\theta関数", 0);
    MissingChar(ThetaIdentity, "θ関数恒等式", 0);
    MissingChar(ThetaIdentity, "\\theta関数恒等式", 6);
  }

  /** The identity the explanation shows is itself too complex: an infinite
      sum, so sanitizing it yields the notice. */
  lemma {:induction false} IdentityIsComplex()
    ensures SanitizeMathFormula(ThetaIdentity) == Placeholder
  {
    IdentityNotRequest();
    IdentityMentionsInfiniteSum();
  }

  /** The count limit for each counted character. */
  function Limit(c: char): nat
    requires c == '{' || c == '}' || c == '_' || c == '^'
  {
    if c == '{' || c == '}' then 10 else 20
  }

  /** A run of a character other than `ヤ`, `θ` and the backslash is not a
      request and names no sum or product. */
  lemma {:induction false} RunNotRequest(c: char, n: nat)
    requires c != 'ヤ' && c != 'θ' && c != '\\'
    ensures !ThetaRequest(Repeat(c, n))
    ensures !Contains(Repeat(c, n), "\\sum") && !Contains(Repeat(c, n), "\\prod")
  {
    var s := Repeat(c, n);
    MissingChar(s, "ヤコビのθ関数", 0);
    MissingChar(s, "ヤコビの\\theta関数", 0);
    MissingChar(s, "θ関数恒等式", 0);
    MissingChar(s, "\\theta関数恒等式", 0);
    MissingChar(s, "\\sum", 0);
    MissingChar(s, "\\prod", 0);
  }

  /** A run of one counted character is replaced by the notice exactly when
      it is longer than that character's limit. */
  lemma {:induction false} CountThreshold(c: char, n: nat)
    requires c == '{' || c == '}' || c == '_' || c == '^'
    ensures SanitizeMathFormula(Repeat(c, n)) == Placeholder <==> n > Limit(c)
    ensures n <= Limit(c) ==> SanitizeMathFormula(Repeat(c, n)) == Repeat(c, n)
  {
    var s := Repeat(c, n);
    RunNotRequest(c, n);
    Utf16Repeat(c, n);
    CountRepeat(c, n, '{');
    CountRepeat(c, n, '}');
    CountRepeat(c, n, '_');
    CountRepeat(c, n, '^');
    assert TooComplex(s) <==> n > Limit(c);
    assert |Placeholder| > 20;
  }

  /** A run of plain letters is replaced by the notice exactly when it is
      longer than 500 characters. */
  lemma {:induction false} LengthThreshold(n: nat)
    ensures SanitizeMathFormula(Repeat('x', n)) == Placeholder <==> n > 500
    ensures n <= 500 ==> SanitizeMathFormula(Repeat('x', n)) == Repeat('x', n)
  {
    var s := Repeat('x', n);
    RunNotRequest('x', n);
    Utf16Repeat('x', n);
    CountRepeat('x', n, '{');
    CountRepeat('x', n, '}');
    CountRepeat('x', n, '_');
    CountRepeat('x', n, '^');
    if n > 0 && n <= 500 {
      assert s[0] != Placeholder[0];
    }
  }

  /** The length limit counts code units: a run of `𝑥` (outside the Basic
      Multilingual Plane, two units each) is replaced by the notice once it
      is longer than 250 characters. */
  lemma {:induction false} AstralLengthThreshold(n: nat)
    ensures SanitizeMathFormula(Repeat('𝑥', n)) == Placeholder <==> n > 250
    ensures n <= 250 ==> SanitizeMathFormula(Repeat('𝑥', n)) == Repeat('𝑥', n)
  {
    var s := Repeat('𝑥', n);
    RunNotRequest('𝑥', n);
    Utf16Repeat('𝑥', n);
    CountRepeat('𝑥', n, '{');
    CountRepeat('𝑥', n, '}');
    CountRepeat('𝑥', n, '_');
    CountRepeat('𝑥', n, '^');
    if n > 0 && n <= 250 {
      assert s[0] != Placeholder[0];
    }
  }

  // ---- `processApiMathResponse`

  /** The replacement callback: a match opened and closed by `$$` has its
      inner text sanitized between `$$`; one opened and closed by `$`
      between `$`; anything else is returned as it is. */
  function RewriteMatch(found: string): string {
    if StartsWith(found, "$$") && EndsWith(found, "$$") then
      "$$" + SanitizeMathFormula(Substring(found, 2, |found| - 2)) + "$$"
    else if StartsWith(found, "$") && EndsWith(found, "$") then
      "$" + SanitizeMathFormula(Substring(found, 1, |found| - 1)) + "$"
    else found
  }

  /** `response.replace(mathRegex, RewriteMatch)`. */
  function ProcessApiMathResponse(response: string): string {
    ReplaceAll(response, 0, DollarAlts, RewriteMatch)
  }

  /** A formula segment with its body sanitized; text is kept. */
  function SanitizeSegment(seg: Segment): (r: Segment)
    ensures r.TextSegment? <==> seg.TextSegment?
  {
    match seg
    case TextSegment(t) => seg
    case MathSegment(d, f) => MathSegment(d, SanitizeMathFormula(f))
  }

  function SanitizeAll(segs: seq<Segment>): (r: seq<Segment>)
    ensures |r| == |segs|
  {
    if segs == [] then [] else [SanitizeSegment(segs[0])] + SanitizeAll(segs[1..])
  }

  lemma {:induction false} SanitizeAllAppend(a: seq<Segment>, b: seq<Segment>)
    ensures SanitizeAll(a + b) == SanitizeAll(a) + SanitizeAll(b)
  {
    if a != [] {
      assert (a + b)[1..] == a[1..] + b;
      SanitizeAllAppend(a[1..], b);
    } else {
      assert a + b == b;
    }
  }

  /** Which branch of the callback a complete formula takes, and the body
      it cuts out: `$$` is recognised first, and a `$…$` body never starts
      with `$`. */
  lemma {:induction false} RewriteBranch(d: Delim, f: string)
    requires d in DollarAlts && f != [] && (d == Dollar ==> f[0] != '$')
    ensures var t := Open(d) + f + Close(d);
      if d == DoubleDollar then
        StartsWith(t, "$$") && EndsWith(t, "$$") && Substring(t, 2, |t| - 2) == f
      else
        !StartsWith(t, "$$") && StartsWith(t, "$") && EndsWith(t, "$") && Substring(t, 1, |t| - 1) == f
  {
    var t := Open(d) + f + Close(d);
    if d == DoubleDollar {
      assert t[..2] == "$$" && t[|t| - 2..] == "$$";
      assert t[2..|t| - 2] == f;
    } else {
      assert t[1] == f[0];
      assert t[..1] == "$" && t[|t| - 1..] == "$";
      assert t[1..|t| - 1] == f;
    }
  }

  /** The callback applied to a complete formula puts its delimiters back
      around the sanitized body. */
  lemma {:induction false} RewriteFormula(d: Delim, f: string)
    requires d in DollarAlts && f != [] && (d == Dollar ==> f[0] != '$')
    ensures RewriteMatch(Open(d) + f + Close(d)) == Open(d) + SanitizeMathFormula(f) + Close(d)
  {
    RewriteBranch(d, f);
  }

  /** On well-formed segments, rewriting each formula with the callback is
      sanitizing each formula's body. */
  lemma {:induction false} RewrittenSanitized(segs: seq<Segment>)
    requires WellFormed(segs, DollarAlts)
    ensures Rewritten(segs, RewriteMatch) == Reassemble(SanitizeAll(segs))
  {
    if segs != [] {
      RewrittenSanitized(segs[1..]);
      assert SanitizeAll(segs)[1..] == SanitizeAll(segs[1..]);
      match segs[0]
      case TextSegment(_) =>
      case MathSegment(d, f) =>
        if d == Dollar {
          assert f[0] in f;
        }
        RewriteFormula(d, f);
    }
  }

  /** The rewritten reply is the reply's segments, every formula sanitized,
      put back together. */
  lemma {:induction false} ProcessApiSegments(response: string)
    ensures ProcessApiMathResponse(response) == Reassemble(SanitizeAll(Segments(response, 0, DollarAlts)))
  {
    ReplaceAllSegments(response, 0, DollarAlts, RewriteMatch);
    SegmentsWellFormed(response, 0, DollarAlts);
    RewrittenSanitized(Segments(response, 0, DollarAlts));
  }

  /** A reply whose formulas are all left alone by the sanitizer comes back
      unchanged. */
  lemma {:induction false} ProcessKeepsStable(response: string)
    requires var segs := Segments(response, 0, DollarAlts);
      forall k :: 0 <= k < |segs| ==> SanitizeSegment(segs[k]) == segs[k]
    ensures ProcessApiMathResponse(response) == response
  {
    var segs := Segments(response, 0, DollarAlts);
    ProcessApiSegments(response);
    SanitizeAllStable(segs);
    SegmentsRoundTrip(response, 0, DollarAlts);
  }

  lemma {:induction false} SanitizeAllStable(segs: seq<Segment>)
    requires forall k :: 0 <= k < |segs| ==> SanitizeSegment(segs[k]) == segs[k]
    ensures SanitizeAll(segs) == segs
  {
    if segs != [] {
      var rest := segs[1..];
      assert forall k :: 0 <= k < |rest| ==> rest[k] == segs[k + 1];
      SanitizeAllStable(rest);
      assert SanitizeAll(segs) == [SanitizeSegment(segs[0])] + SanitizeAll(rest);
    }
  }

  /** One formula between plain text: the text is copied and only the
      formula's body is sanitized. */
  lemma {:induction false} ProcessFormulaInText(p: string, d: Delim, c: string, q: string)
    requires Plain(p) && Plain(q) && CleanBody(c, d) && d in DollarAlts
    ensures ProcessApiMathResponse(p + Open(d) + c + Close(d) + q) ==
      p + ((Open(d) + SanitizeMathFormula(c) + Close(d)) + q)
  {
    ReplaceOneFormula(p, d, c, q, DollarAlts, RewriteMatch);
    if d == Dollar {
      assert c[0] != '$';
    }
    RewriteFormula(d, c);
  }

  /** A reply that is exactly one formula naming the theta function
      becomes the explanation between that formula's delimiters; for `$…$`
      this puts the explanation's own `$$…$$` formula inside `$…$`. */
  lemma {:induction false} ProcessRequestFormula(s: string, d: Delim)
    requires d in DollarAlts && IsSpan(s, 0, |s|, d)
    requires forall e :: e < |s| ==> !IsSpan(s, 0, e, d)
    requires ThetaRequest(s[Width(d)..|s| - Width(d)])
    ensures ProcessApiMathResponse(s) == Open(d) + Replacement + Close(d)
  {
    ProcessApiSegments(s);
    WholeFormula(s, d, DollarAlts);
    var seg := MathSegment(d, s[Width(d)..|s| - Width(d)]);
    assert SanitizeAll([seg]) == [MathSegment(d, Replacement)];
    assert Reassemble([MathSegment(d, Replacement)]) == Open(d) + Replacement + Close(d) + [];
  }

  /** The bare name of the identity is a request, and a body either
      delimiter pair accepts. */
  lemma {:induction false} NameIsRequest()
    ensures ThetaRequest("θ関数恒等式")
    ensures CleanBody("θ関数恒等式", DoubleDollar) && CleanBody("θ関数恒等式", Dollar)
  {
    var f := "θ関数恒等式";
    assert OccursAt(f, f, 0);
  }

  /** A formula with only ASCII letters, digits and `^` is kept. */
  lemma {:induction false} SimpleKept()
    ensures SanitizeMathFormula("x^2") == "x^2"
  {
    var f := "x^2";
    MissingChar(f, "ヤコビのθ関数", 0);
    MissingChar(f, "ヤコビの\\theta関数", 0);
    MissingChar(f, "θ関数恒等式", 0);
    MissingChar(f, "\\theta関数恒等式", 0);
    MissingChar(f, "\\sum", 0);
    MissingChar(f, "\\prod", 0);
  }

  /** A formula the sanitizer keeps, between plain text, leaves the whole
      reply unchanged. */
  lemma {:induction false} ProcessKeptFormula(p: string, d: Delim, c: string, q: string)
    requires Plain(p) && Plain(q) && CleanBody(c, d) && d in DollarAlts
    requires SanitizeMathFormula(c) == c
    ensures ProcessApiMathResponse(p + Open(d) + c + Close(d) + q) == p + Open(d) + c + Close(d) + q
  {
    ProcessFormulaInText(p, d, c, q);
    RegroupSpan(p, Open(d), c, Close(d), q);
  }

  lemma {:induction false} RegroupSpan(p: string, a: string, c: string, b: string, q: string)
    ensures p + ((a + c + b) + q) == p + a + c + b + q
  {
  }

  /** A simple inline formula in a sentence passes through untouched. */
  lemma {:induction false} ProcessSimpleFormula()
    ensures ProcessApiMathResponse("area " + "$" + "x^2" + "$" + " here") == "area " + "$" + "x^2" + "$" + " here"
  {
    SimpleKept();
    assert CleanBody("x^2", Dollar) && Plain("area ") && Plain(" here");
    ProcessKeptFormula("area ", Dollar, "x^2", " here");
  }

  // ---- `getPrecomputedMathResponse`

  const PrecomputedHeading: string := "ヤコビのθ関数恒等式:\n\n"

  /** The trimmed canned answer: a heading and the identity as a block
      formula. */
  const PrecomputedAnswer: string := PrecomputedHeading + "$$" + ThetaIdentity + "$$"

  /** The message asks for the theta-function identity to be shown and
      says no explanation is wanted. */
  predicate AsksForBareIdentity(message: string) {
    Contains(message, "ヤコビのθ関数") && Contains(message, "表示") &&
    (Contains(message, "説明とか不要") || Contains(message, "説明不要"))
  }

  function GetPrecomputedMathResponse(userMessage: string): (r: Option<string>)
    ensures r.Some? <==> AsksForBareIdentity(userMessage)
    ensures r.Some? ==> r.value == PrecomputedAnswer
  {
    if AsksForBareIdentity(userMessage) then Some(PrecomputedAnswer) else None
  }

  /** The canned answer is read as its heading followed by the identity as
      one block formula, by the renderer's scan and by the sanitizer's. */
  lemma {:induction false} PrecomputedAnswerSegments(alts: seq<Delim>)
    requires DoubleDollar in alts
    ensures Segments(PrecomputedAnswer, 0, alts) ==
      [TextSegment(PrecomputedHeading), MathSegment(DoubleDollar, ThetaIdentity)]
  {
    IdentityAscii();
    assert CleanBody(ThetaIdentity, DoubleDollar);
    assert Plain(PrecomputedHeading);
    assert PrecomputedAnswer == PrecomputedHeading + Open(DoubleDollar) + ThetaIdentity + Close(DoubleDollar) + "";
    FormulaBetweenText(PrecomputedHeading, DoubleDollar, ThetaIdentity, "", alts);
  }

  /** Passed through the reply sanitizer, the canned answer would lose its
      identity to the complexity notice. */
  lemma {:induction false} PrecomputedAnswerSanitized()
    ensures ProcessApiMathResponse(PrecomputedAnswer) == PrecomputedHeading + ("$$" + Placeholder + "$$")
  {
    IdentityAscii();
    assert CleanBody(ThetaIdentity, DoubleDollar);
    assert Plain(PrecomputedHeading);
    assert PrecomputedAnswer == PrecomputedHeading + Open(DoubleDollar) + ThetaIdentity + Close(DoubleDollar) + "";
    ProcessFormulaInText(PrecomputedHeading, DoubleDollar, ThetaIdentity, "");
    IdentityIsComplex();
  }

  /** A message meeting all three conditions gets the canned answer; one
      that does not say the explanation is unwanted gets none. */
  lemma {:induction false} PrecomputedTriggers()
    ensures GetPrecomputedMathResponse("ヤコビのθ関数を表示して。説明不要") == Some(PrecomputedAnswer)
    ensures GetPrecomputedMathResponse("ヤコビのθ関数を表示して") == None
  {
    var yes := "ヤコビのθ関数を表示して。説明不要";
    assert yes[0..7] == "ヤコビのθ関数" && yes[8..10] == "表示" && yes[13..17] == "説明不要";
    assert OccursAt(yes, "ヤコビのθ関数", 0);
    assert OccursAt(yes, "表示", 8);
    assert OccursAt(yes, "説明不要", 13);
    var no := "ヤコビのθ関数を表示して";
    assert forall k :: 0 <= k < |no| ==> no[k] != '説';
    MissingChar(no, "説明とか不要", 0);
    MissingChar(no, "説明不要", 0);
  }
}
