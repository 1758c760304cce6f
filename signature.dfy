/**
 * Signature extraction of `generateMainFile` (src/commands/runtestcases.ts):
 * the one regular expression
 *
 *   (?:int|void|string|double|float|long|bool|vector<\w+>)\s+(\w+)\s*\(([\s\S]*?)\)
 *
 * applied with JavaScript's leftmost-match semantics, the return type taken as
 * the first space-separated token of the whole match, and the parameter text
 * split on commas into (type, name) pairs.
 *
 * Every part of the pattern after the return-type group is forced: `\s+` must
 * stop where `\w+` starts, `\w+` must stop where `\s*\(` starts, and the lazy
 * group ends at the first `)`.  So the matcher below scans maximal runs, and
 * `ShapeAt` states declaratively what a match of the pattern is; the lemmas
 * show the two agree in both directions.
 */
module Signature {

  import opened Wrappers
  import opened Text

  /** The literal alternatives of the return-type group, in pattern order. */
  const LiteralKeywords: seq<string> := ["int", "void", "string", "double", "float", "long", "bool"]

  const SignatureNotFound := "Could not find function signature in code"

  /** Positions of one match: `s[start..kwEnd]` is the return-type group,
      `s[nameStart..nameEnd]` capture 1, `s[open]` the `(`, and `s[open + 1..end - 1]`
      capture 2; the whole match is `s[start..end]`. */
  datatype SigMatch = SigMatch(start: nat, kwEnd: nat, nameStart: nat, nameEnd: nat, open: nat, end: nat)

  datatype Param = Param(ty: string, name: string)

  datatype ParsedSignature = ParsedSignature(returnType: string, functionName: string, params: seq<Param>)

  // ---------------------------------------------------------------- the pattern, declaratively

  /** `s[i..a]` matches `(?:int|void|string|double|float|long|bool|vector<\w+>)`. */
  ghost predicate KeywordAt(s: string, i: nat, a: nat)
  {
    i <= a <= |s| &&
    (s[i..a] in LiteralKeywords
     || (i + 9 <= a && OccursAt(s, "vector<", i) && s[a - 1] == '>' && AllIn(s[i + 7..a - 1], Word)))
  }

  /** `m` marks out a match of the whole pattern in `s`. */
  ghost predicate ShapeAt(s: string, m: SigMatch)
  {
    && KeywordAt(s, m.start, m.kwEnd)
    && m.kwEnd < m.nameStart < m.nameEnd <= m.open < m.end <= |s|
    && AllIn(s[m.kwEnd..m.nameStart], JsSpace)
    && AllIn(s[m.nameStart..m.nameEnd], Word)
    && AllIn(s[m.nameEnd..m.open], JsSpace)
    && s[m.open] == '('
    && m.open + 1 < m.end && s[m.end - 1] == ')'
    && ')' !in s[m.open + 1..m.end - 1]
  }

  // ---------------------------------------------------------------- the matcher

  /** The position in `kws` of the first alternative that occurs at `i`. */
  function FirstLiteral(s: string, i: nat, kws: seq<string>, from: nat): (r: Option<nat>)
    requires from <= |kws|
    ensures r.Some? ==> from <= r.value < |kws| && OccursAt(s, kws[r.value], i)
    ensures r.Some? ==> forall k | from <= k < r.value :: !OccursAt(s, kws[k], i)
    ensures r.None? ==> forall k | from <= k < |kws| :: !OccursAt(s, kws[k], i)
    decreases |kws| - from
  {
    if from == |kws| then None
    else if OccursAt(s, kws[from], i) then Some(from)
    else FirstLiteral(s, i, kws, from + 1)
  }

  /** Where the return-type group ends when it matches at `i`. */
  function KeywordEnd(s: string, i: nat): (r: Option<nat>)
    requires i <= |s|
    ensures r.Some? ==> i < r.value <= |s|
  {
    match FirstLiteral(s, i, LiteralKeywords, 0)
    case Some(k) => Some(i + |LiteralKeywords[k]|)
    case None =>
      if OccursAt(s, "vector<", i) then
        var w := Span(s, i + 7, Word);
        if i + 7 < w < |s| && s[w] == '>' then Some(w + 1) else None
      else None
  }

  /** The match of the pattern anchored at `i`, if any. */
  function MatchAt(s: string, i: nat): (r: Option<SigMatch>)
    requires i <= |s|
    ensures r.Some? ==> r.value.start == i
  {
    match KeywordEnd(s, i)
    case None => None
    case Some(a) =>
      var b := Span(s, a, JsSpace);
      var c := Span(s, b, Word);
      var d := Span(s, c, JsSpace);
      if b == a || c == b || d == |s| || s[d] != '(' then None
      else
        match IndexOfChar(s, d + 1, ')')
        case None => None
        case Some(e) => Some(SigMatch(i, a, b, c, d, e + 1))
  }

  /** The leftmost match starting at or after `i`. */
  function FindFrom(s: string, i: nat): (r: Option<SigMatch>)
    requires i <= |s|
    ensures r.Some? ==> i <= r.value.start <= |s| && MatchAt(s, r.value.start) == r
    ensures r.Some? ==> forall j | i <= j < r.value.start :: MatchAt(s, j).None?
    ensures r.None? ==> forall j | i <= j <= |s| :: MatchAt(s, j).None?
    decreases |s| - i
  {
    var here := MatchAt(s, i);
    if here.Some? then here
    else if i == |s| then None
    else FindFrom(s, i + 1)
  }

  /** `userCode.match(pattern)`: the leftmost match. */
  function FindSignature(s: string): Option<SigMatch>
  {
    FindFrom(s, 0)
  }

  // ---------------------------------------------------------------- matcher and pattern agree

  lemma KeywordEndSound(s: string, i: nat)
    requires i <= |s| && KeywordEnd(s, i).Some?
    ensures KeywordAt(s, i, KeywordEnd(s, i).value)
  {
    var a := KeywordEnd(s, i).value;
    var lit := FirstLiteral(s, i, LiteralKeywords, 0);
    if lit.None? {
      var w := Span(s, i + 7, Word);
      assert s[i + 7..a - 1] == s[i + 7..w];
    } else {
      assert s[i..a] == LiteralKeywords[lit.value];
    }
  }

  /** The literal alternatives have pairwise distinct first letters, and none starts with `ve`. */
  lemma LiteralsDistinct(k: nat, k': nat)
    requires k < |LiteralKeywords| && k' < |LiteralKeywords|
    ensures LiteralKeywords[k][0] == LiteralKeywords[k'][0] ==> k == k'
    ensures !(LiteralKeywords[k][0] == 'v' && LiteralKeywords[k][1] == 'e')
  {
  }

  lemma KeywordEndComplete(s: string, i: nat, a: nat)
    requires KeywordAt(s, i, a)
    ensures KeywordEnd(s, i) == Some(a)
  {
    if s[i..a] in LiteralKeywords {
      LiteralKeywordEnd(s, i, a);
    } else {
      VectorKeywordEnd(s, i, a);
    }
  }

  lemma LiteralKeywordEnd(s: string, i: nat, a: nat)
    requires i <= a <= |s| && s[i..a] in LiteralKeywords
    ensures KeywordEnd(s, i) == Some(a)
  {
    var k :| 0 <= k < |LiteralKeywords| && LiteralKeywords[k] == s[i..a];
    assert OccursAt(s, LiteralKeywords[k], i);
    var k' := FirstLiteral(s, i, LiteralKeywords, 0).value;
    assert s[i] == LiteralKeywords[k][0] == LiteralKeywords[k'][0];
    LiteralsDistinct(k, k');
  }

  lemma VectorKeywordEnd(s: string, i: nat, a: nat)
    requires i + 9 <= a <= |s| && OccursAt(s, "vector<", i) && s[a - 1] == '>' && AllIn(s[i + 7..a - 1], Word)
    ensures KeywordEnd(s, i) == Some(a)
  {
    var lit := FirstLiteral(s, i, LiteralKeywords, 0);
    assert s[i] == 'v' && s[i + 1] == 'e' by {
      assert s[i..i + 7] == "vector<";
      assert s[i] == s[i..i + 7][0] && s[i + 1] == s[i..i + 7][1];
    }
    if lit.Some? {
      var k := lit.value;
      assert s[i] == LiteralKeywords[k][0] && s[i + 1] == LiteralKeywords[k][1];
      LiteralsDistinct(k, k);
      assert false;
    }
    SpanExact(s, i + 7, a - 1, Word);
  }

  /** Every match the matcher reports has the shape of the pattern. */
  lemma MatchAtSound(s: string, i: nat)
    requires i <= |s| && MatchAt(s, i).Some?
    ensures ShapeAt(s, MatchAt(s, i).value)
  {
    KeywordEndSound(s, i);
    var m := MatchAt(s, i).value;
    assert s[m.open + 1..m.end - 1] == s[m.open + 1..m.end - 1];
  }

  /** Whatever has the shape of the pattern is exactly what the matcher reports at its start. */
  lemma MatchAtComplete(s: string, m: SigMatch)
    requires ShapeAt(s, m)
    ensures MatchAt(s, m.start) == Some(m)
  {
    KeywordEndComplete(s, m.start, m.kwEnd);
    ShapeSpans(s, m);
    IndexOfCharExact(s, m.open + 1, m.end - 1, ')');
    var b := Span(s, m.kwEnd, JsSpace);
    var c := Span(s, b, Word);
    var d := Span(s, c, JsSpace);
    assert b == m.nameStart && c == m.nameEnd && d == m.open;
    assert !(b == m.kwEnd || c == b || d == |s| || s[d] != '(');
  }

  /** The three runs after the keyword end exactly where the shape says. */
  lemma ShapeSpans(s: string, m: SigMatch)
    requires ShapeAt(s, m)
    ensures Span(s, m.kwEnd, JsSpace) == m.nameStart
    ensures Span(s, m.nameStart, Word) == m.nameEnd
    ensures Span(s, m.nameEnd, JsSpace) == m.open
  {
    assert s[m.nameStart..m.nameEnd][0] == s[m.nameStart];
    SpanExact(s, m.kwEnd, m.nameStart, JsSpace);
    SpanExact(s, m.nameStart, m.nameEnd, Word);
    SpanExact(s, m.nameEnd, m.open, JsSpace);
  }

  /** `FindSignature` returns a match of the pattern, and it is the leftmost one:
      every match of the pattern starts at or after it, and one starting at the same
      place is the same match. */
  lemma FindSignatureLeftmost(s: string, m: SigMatch)
    requires ShapeAt(s, m)
    ensures FindSignature(s).Some?
    ensures ShapeAt(s, FindSignature(s).value)
    ensures FindSignature(s).value.start <= m.start
    ensures FindSignature(s).value.start == m.start ==> FindSignature(s).value == m
  {
    MatchAtComplete(s, m);
    var f := FindSignature(s);
    MatchAtSound(s, f.value.start);
  }

  /** `FindSignature` fails exactly when nothing in the text has the shape of the pattern. */
  lemma FindSignatureNone(s: string)
    ensures FindSignature(s).None? <==> forall m :: !ShapeAt(s, m)
  {
    if FindSignature(s).Some? {
      MatchAtSound(s, FindSignature(s).value.start);
    } else {
      forall m | ShapeAt(s, m) ensures false {
        MatchAtComplete(s, m);
      }
    }
  }

  // ---------------------------------------------------------------- parameters

  /** The name given to the parameter at `index` when its declaration has no second token. */
  function SynthesizedName(index: nat): string
  {
    "param" + NatToString(index)
  }

  /** One trimmed piece of the parameter list: `param.split(' ')[0]` is the type and
      `parts[1].replace('&', '')` the name, or `param<index>` without a second token. */
  function ParamOf(piece: string, index: nat): Param
  {
    var parts := Split(piece, ' ');
    Param(parts[0], if |parts| > 1 then ReplaceFirst(parts[1], "&", "") else SynthesizedName(index))
  }

  /** The type and name lists of `generateMainFile`, zipped: one entry per piece, in order. */
  function ParseParams(text: string): (ps: seq<Param>)
    ensures |ps| == |Split(text, ',')|
  {
    var pieces := ParamPieces(text);
    seq(|pieces|, k requires 0 <= k < |pieces| => ParamOf(pieces[k], k))
  }

  /** `functionMatch[0].split(' ')[0]`: the whole match up to its first space. */
  function ReturnTypeOf(s: string, m: SigMatch): string
    requires m.start <= m.end <= |s|
  {
    Split(s[m.start..m.end], ' ')[0]
  }

  /** `functionMatch[2].split(',').map(param => param.trim())`. */
  function ParamPieces(text: string): (pieces: seq<string>)
    ensures |pieces| == |Split(text, ',')|
  {
    var raw := Split(text, ',');
    seq(|raw|, k requires 0 <= k < |raw| => Trim(raw[k], JsSpace))
  }

  lemma SameElements(a: seq<Param>, b: seq<Param>)
    requires |a| == |b| && forall k | 0 <= k < |a| :: a[k] == b[k]
    ensures a == b
  {
  }

  lemma ParseParamsAt(text: string, k: nat)
    requires k < |Split(text, ',')|
    ensures ParseParams(text)[k] == ParamOf(Trim(Split(text, ',')[k], JsSpace), k)
  {
  }

  /** The signature-parsing part of `generateMainFile`. */
  function ParseSignature(s: string): (r: Result<ParsedSignature>)
    ensures r.Err? ==> r.message == SignatureNotFound
    ensures r.Ok? ==> |r.value.params| >= 1
  {
    match FindSignature(s)
    case None => Err(SignatureNotFound)
    case Some(m) =>
      Ok(ParsedSignature(ReturnTypeOf(s, m),
                         s[m.nameStart..m.nameEnd],
                         ParseParams(s[m.open + 1..m.end - 1])))
  }

  // ---------------------------------------------------------------- properties

  /** Parsing fails, with the fixed message, exactly when no text matches the pattern. */
  lemma ParseSignatureFails(s: string)
    ensures ParseSignature(s).Err? <==> forall m :: !ShapeAt(s, m)
    ensures ParseSignature(s).Err? ==> ParseSignature(s).message == SignatureNotFound
  {
    FindSignatureNone(s);
  }

  /** The function name is capture 1: a non-empty run of word characters. */
  lemma FunctionNameIsWord(s: string)
    requires ParseSignature(s).Ok?
    ensures ParseSignature(s).value.functionName != ""
    ensures AllIn(ParseSignature(s).value.functionName, Word)
  {
    MatchAtSound(s, FindSignature(s).value.start);
  }

  /** The return-type group never contains a space. */
  lemma KeywordHasNoSpace(s: string, i: nat, a: nat)
    requires KeywordAt(s, i, a)
    ensures ' ' !in s[i..a]
  {
    var kw := s[i..a];
    if kw !in LiteralKeywords {
      forall j | 0 <= j < |kw| ensures kw[j] != ' ' {
        if j < 7 {
          assert kw[j] == s[i..i + 7][j];
        } else if j < |kw| - 1 {
          assert kw[j] == s[i + 7..a - 1][j - 7];
        }
      }
    }
  }

  /** When a plain space follows the return-type group, the return type is that group's text. */
  lemma ReturnTypeIsKeyword(s: string, m: SigMatch)
    requires ShapeAt(s, m)
    requires s[m.kwEnd] == ' '
    ensures ReturnTypeOf(s, m) == s[m.start..m.kwEnd]
  {
    KeywordHasNoSpace(s, m.start, m.kwEnd);
    var kw := s[m.start..m.kwEnd];
    assert s[m.start..m.end] == kw + [' '] + s[m.kwEnd + 1..m.end];
    SplitPrefix(kw, ' ', s[m.kwEnd + 1..m.end]);
  }

  /** A piece with no second space-token gets the synthesized positional name, and
      synthesized names of different positions differ. */
  lemma SynthesizedNamesDistinct(i: nat, j: nat)
    ensures SynthesizedName(i) == SynthesizedName(j) <==> i == j
  {
    NatToStringInjective(i, j);
    if SynthesizedName(i) == SynthesizedName(j) {
      assert NatToString(i) == SynthesizedName(i)[5..];
    }
  }

  /** `()` yields one parameter with the empty type and the name `param0`. */
  lemma EmptyParameterList()
    ensures ParseParams("") == [Param("", "param0")]
  {
    assert Split("", ',') == [""];
    TrimNoop("", JsSpace);
    assert DigitChar(0) == '0';
    assert NatToString(0) == "0";
    assert ParamOf("", 0) == Param("", "param0");
  }

  /** A declaration `T N` whose type and name carry no space, comma or `&`. */
  predicate PlainDecl(p: Param)
  {
    && p.ty != "" && p.name != ""
    && (forall j | 0 <= j < |p.ty| :: !In(p.ty[j], JsSpace) && p.ty[j] != ',')
    && (forall j | 0 <= j < |p.name| :: !In(p.name[j], JsSpace) && p.name[j] != ',' && p.name[j] != '&')
  }

  function DeclText(p: Param): string
  {
    p.ty + " " + p.name
  }

  function DeclTexts(ps: seq<Param>): (r: seq<string>)
    ensures |r| == |ps|
    ensures forall k | 0 <= k < |ps| :: r[k] == DeclText(ps[k])
  {
    if ps == [] then [] else [DeclText(ps[0])] + DeclTexts(ps[1..])
  }

  /** `xs` joined by ", " is the same text as `xs` with a space put before every element but the first, joined by ",". */
  function SpaceLed(xs: seq<string>): (r: seq<string>)
    ensures |r| == |xs|
    ensures forall k | 0 <= k < |xs| :: r[k] == (if k == 0 then xs[k] else " " + xs[k])
  {
    if xs == [] then [] else [xs[0]] + seq(|xs| - 1, k requires 0 <= k < |xs| - 1 => " " + xs[k + 1])
  }

  lemma {:induction false} JoinCommaSpace(xs: seq<string>)
    ensures Join(xs, ", ") == Join(SpaceLed(xs), ",")
  {
    if |xs| > 1 {
      JoinCommaSpace(xs[1..]);
      var t := SpaceLed(xs[1..]);
      var u := SpaceLed(xs);
      assert u[1..][1..] == t[1..];
      JoinFirstPrefixed(u[1..], t, ",", " ");
    }
  }

  /** Putting `p` before the first element puts it before the whole joined text. */
  lemma JoinFirstPrefixed(v: seq<string>, w: seq<string>, sep: string, p: string)
    requires |v| == |w| >= 1 && v[0] == p + w[0] && v[1..] == w[1..]
    ensures Join(v, sep) == p + Join(w, sep)
  {
    if |v| > 1 {
      assert Join(v, sep) == p + w[0] + sep + Join(w[1..], sep);
    }
  }

  /** A plain declaration, trimmed or not, parses back to itself. */
  lemma ParamOfDecl(p: Param, k: nat)
    requires PlainDecl(p)
    ensures Trim(DeclText(p), JsSpace) == DeclText(p)
    ensures Trim(" " + DeclText(p), JsSpace) == DeclText(p)
    ensures ParamOf(DeclText(p), k) == p
    ensures ',' !in DeclText(p) && ',' !in " " + DeclText(p)
  {
    var d := DeclText(p);
    DeclNoComma(p);
    assert d[0] == p.ty[0] && d[|d| - 1] == p.name[|p.name| - 1];
    TrimNoop(d, JsSpace);
    SpanExact(" " + d, 0, 1, JsSpace);
    assert (" " + d)[1..] == d;
    DeclSplit(p);
    ContainsChar(p.name, '&');
    ReplaceFirstAbsent(p.name, "&", "");
  }

  lemma DeclNoComma(p: Param)
    requires PlainDecl(p)
    ensures ',' !in DeclText(p)
  {
    var d := DeclText(p);
    forall j | 0 <= j < |d| ensures d[j] != ',' {
      if j < |p.ty| { assert d[j] == p.ty[j]; }
      else if j > |p.ty| { assert d[j] == p.name[j - |p.ty| - 1]; }
    }
  }

  /** The type and the name are the two space-separated tokens of a plain declaration. */
  lemma DeclSplit(p: Param)
    requires PlainDecl(p)
    ensures Split(DeclText(p), ' ') == [p.ty, p.name]
  {
    assert ' ' !in p.ty by {
      forall j | 0 <= j < |p.ty| ensures p.ty[j] != ' ' { assert !In(p.ty[j], JsSpace); }
    }
    assert ' ' !in p.name by {
      forall j | 0 <= j < |p.name| ensures p.name[j] != ' ' { assert !In(p.name[j], JsSpace); }
    }
    SplitPrefix(p.ty, ' ', p.name);
    SplitWhole(p.name, ' ');
  }

  /** Parsing back a parameter list written as `T1 N1, T2 N2, ...` gives the same
      (type, name) pairs, in declaration order. */
  lemma ParseParamsRoundTrip(ps: seq<Param>)
    requires |ps| >= 1
    requires forall k | 0 <= k < |ps| :: PlainDecl(ps[k])
    ensures ParseParams(Join(DeclTexts(ps), ", ")) == ps
  {
    var text := Join(DeclTexts(ps), ", ");
    DeclPieces(ps);
    var parsed := ParseParams(text);
    forall k | 0 <= k < |ps| ensures parsed[k] == ps[k] {
      ParseParamsAt(text, k);
      ParamOfDecl(ps[k], k);
    }
    SameElements(parsed, ps);
  }

  /** Splitting the joined declarations at commas gives each declaration back, trimmed. */
  lemma DeclPieces(ps: seq<Param>)
    requires |ps| >= 1
    requires forall k | 0 <= k < |ps| :: PlainDecl(ps[k])
    ensures var raw := Split(Join(DeclTexts(ps), ", "), ',');
            |raw| == |ps| && forall k | 0 <= k < |ps| :: Trim(raw[k], JsSpace) == DeclText(ps[k])
  {
    var xs := DeclTexts(ps);
    var ys := SpaceLed(xs);
    JoinCommaSpace(xs);
    forall k | 0 <= k < |ys| ensures ',' !in ys[k] && Trim(ys[k], JsSpace) == xs[k] {
      ParamOfDecl(ps[k], k);
    }
    SplitJoin(ys, ',');
  }

  /** A declaration written `kw name(body)` with one space has the shape of the pattern from its first character. */
  lemma CanonicalShape(kw: string, name: string, body: string)
    requires kw in LiteralKeywords && name != [] && AllIn(name, Word) && body != [] && ')' !in body
    ensures var s := kw + " " + name + "(" + body + ")";
            var m := SigMatch(0, |kw|, |kw| + 1, |kw| + 1 + |name|, |kw| + 1 + |name|, |s|);
            ShapeAt(s, m) && s[m.kwEnd] == ' ' && s[m.start..m.kwEnd] == kw
            && s[m.nameStart..m.nameEnd] == name && s[m.open + 1..m.end - 1] == body
  {
    var s := kw + " " + name + "(" + body + ")";
    var n := |kw| + 1 + |name|;
    assert s[0..|kw|] == kw;
    assert s[|kw|..|kw| + 1] == " ";
    assert s[|kw| + 1..n] == name;
    assert s[n + 1..|s| - 1] == body;
  }

  /** A match of the pattern at the very start of the text is the one `FindSignature` reports. */
  lemma FindSignatureAtStart(s: string, m: SigMatch)
    requires ShapeAt(s, m) && m.start == 0
    ensures FindSignature(s) == Some(m)
  {
    MatchAtComplete(s, m);
  }

  /** A declaration written `kw name(body)` parses into exactly those parts. */
  lemma CanonicalParse(kw: string, name: string, body: string)
    requires kw in LiteralKeywords && name != [] && AllIn(name, Word) && body != [] && ')' !in body
    ensures ParseSignature(kw + " " + name + "(" + body + ")") == Ok(ParsedSignature(kw, name, ParseParams(body)))
  {
    var s := kw + " " + name + "(" + body + ")";
    var m := SigMatch(0, |kw|, |kw| + 1, |kw| + 1 + |name|, |kw| + 1 + |name|, |s|);
    CanonicalShape(kw, name, body);
    FindSignatureAtStart(s, m);
    ReturnTypeIsKeyword(s, m);
  }

  lemma JoinNonEmpty(xs: seq<string>, sep: string)
    requires |xs| >= 1 && xs[0] != ""
    ensures Join(xs, sep) != ""
  {
  }

  /** The worked example `int twoSum(vector<int> nums, int target)`. */
  lemma TwoSumExample(s: string, body: string)
    requires body == "vector<int> nums, int target" && s == "int twoSum(" + body + ")"
    ensures ParseSignature(s) == Ok(ParsedSignature("int", "twoSum", [Param("vector<int>", "nums"), Param("int", "target")]))
  {
    assert "int" in LiteralKeywords && AllIn("twoSum", Word);
    CanonicalParse("int", "twoSum", body);
    TwoSumText();
    TwoSumParams(body);
  }

  lemma TwoSumText()
    ensures "int" + " " + "twoSum" + "(" == "int twoSum("
  {
  }

  lemma TwoSumParams(body: string)
    requires body == "vector<int> nums, int target"
    ensures ParseParams(body) == [Param("vector<int>", "nums"), Param("int", "target")]
  {
    var ps := [Param("vector<int>", "nums"), Param("int", "target")];
    TwoSumPlain(ps);
    var ds := DeclTexts(ps);
    assert |ds| == 2 && |ds[1..]| == 1 && ds[1..][0] == ds[1];
    assert Join(ds, ", ") == ds[0] + ", " + ds[1];
    assert ds[0] + ", " + ds[1] == body;
    ParseParamsRoundTrip(ps);
  }

  lemma TwoSumPlain(ps: seq<Param>)
    requires ps == [Param("vector<int>", "nums"), Param("int", "target")]
    ensures forall k | 0 <= k < |ps| :: PlainDecl(ps[k])
  {
    NumsPlain(ps[0]);
    TargetPlain(ps[1]);
  }

  lemma NumsPlain(p: Param)
    requires p == Param("vector<int>", "nums")
    ensures PlainDecl(p)
  {
  }

  lemma TargetPlain(p: Param)
    requires p == Param("int", "target")
    ensures PlainDecl(p)
  {
  }
}
