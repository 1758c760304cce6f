/**
 * The Python test runner (`dist/test_runner.py`): the lines of an input file,
 * `parse_input` with its fallback parsing, `convert_to_str`, the pairing of
 * the sorted input and output fixtures, and the tally of passed cases that
 * becomes the exit code.  `ast.literal_eval`, `float(...)` and the solution
 * under test are parameters; the test directory is its listing and the
 * contents of the files that can be read.
 */
module TestRunner {

  import opened Wrappers
  import opened Text
  import opened PyValues
  import opened NameOrder

  // ---------------------------------------------------------------- read_input_file

  /** Python text mode: `\r\n` and a lone `\r` both become `\n`. */
  function TranslateNewlines(text: string): (r: string)
    ensures '\r' !in r
  {
    if text == [] then []
    else if text[0] == '\r' then
      if |text| >= 2 && text[1] == '\n' then "\n" + TranslateNewlines(text[2..])
      else "\n" + TranslateNewlines(text[1..])
    else [text[0]] + TranslateNewlines(text[1..])
  }

  /** A Windows line break reads as a plain one, so a file saved with `\r\n` means what the same file saved with `\n` does. */
  lemma {:induction false} TranslateCrlf(a: string, b: string)
    requires a == [] || a[|a| - 1] != '\r'
    ensures TranslateNewlines(a + "\r\n" + b) == TranslateNewlines(a + "\n" + b)
  {
    var t1 := a + "\r\n" + b;
    var t2 := a + "\n" + b;
    if a == [] {
      assert t1[2..] == b && t2[1..] == b;
    } else if a[0] == '\r' && a[1] == '\n' {
      assert t1[2..] == a[2..] + "\r\n" + b && t2[2..] == a[2..] + "\n" + b;
      TranslateCrlf(a[2..], b);
    } else {
      assert t1[1..] == a[1..] + "\r\n" + b && t2[1..] == a[1..] + "\n" + b;
      TranslateCrlf(a[1..], b);
    }
  }

  /** The stripped non-blank lines, in order. */
  function KeptLines(lines: seq<string>): (r: seq<string>)
    ensures |r| <= |lines|
  {
    if lines == [] then []
    else
      var t := Trim(lines[|lines| - 1], PySpace);
      KeptLines(lines[..|lines| - 1]) + (if t == "" then [] else [t])
  }

  /** The lines of a file as `read_input_file` returns them. */
  function InputLines(text: string): seq<string>
  {
    KeptLines(Split(TranslateNewlines(text), '\n'))
  }

  /** `read_input_file`: one pass over the file's lines, keeping each non-blank one stripped. */
  method ReadInputFile(text: string) returns (lines: seq<string>)
    ensures lines == InputLines(text)
  {
    var raw := Split(TranslateNewlines(text), '\n');
    lines := [];
    for i := 0 to |raw|
      invariant lines == KeptLines(raw[..i])
    {
      assert raw[..i + 1][..i] == raw[..i];
      var t := Trim(raw[i], PySpace);
      if t != "" {
        lines := lines + [t];
      }
    }
    assert raw[..|raw|] == raw;
  }

  /** Every kept line is non-blank and has nothing left to strip. */
  lemma {:induction false} KeptLinesStripped(lines: seq<string>)
    ensures forall k | 0 <= k < |KeptLines(lines)| ::
              KeptLines(lines)[k] != "" && Trim(KeptLines(lines)[k], PySpace) == KeptLines(lines)[k]
  {
    if lines != [] {
      var init := lines[..|lines| - 1];
      KeptLinesStripped(init);
      TrimIdempotent(lines[|lines| - 1], PySpace);
    }
  }

  /** Lines are kept in file order: the lines of two parts are the lines of the first, then of the second. */
  lemma {:induction false} KeptLinesAppend(a: seq<string>, b: seq<string>)
    ensures KeptLines(a + b) == KeptLines(a) + KeptLines(b)
  {
    if b == [] {
      assert a + b == a;
    } else {
      var init := b[..|b| - 1];
      var t := Trim(b[|b| - 1], PySpace);
      var last := if t == "" then [] else [t];
      assert (a + b)[..|a + b| - 1] == a + init;
      assert (a + b)[|a + b| - 1] == b[|b| - 1];
      assert KeptLines(a + b) == KeptLines(a + init) + last;
      assert KeptLines(b) == KeptLines(init) + last;
      KeptLinesAppend(a, init);
    }
  }

  /** One line is kept, stripped, exactly when it is not blank. */
  lemma KeptLine(line: string)
    ensures Trim(line, PySpace) != "" ==> KeptLines([line]) == [Trim(line, PySpace)]
    ensures Trim(line, PySpace) == "" ==> KeptLines([line]) == []
  {
    assert [line][..0] == [];
  }

  // ---------------------------------------------------------------- parse_input

  /**
   * `parse_input`'s first step: when the line holds `=`, the text between the
   * first and the second `=` (or the end), stripped; otherwise the line itself.
   */
  function AfterEquals(line: string): string
  {
    if '=' in line then
      SplitAtSeparator(line, '=');
      Trim(Split(line, '=')[1], PySpace)
    else line
  }

  /** In `name = value`, the stripped value is what is parsed, and anything after a second `=` is dropped. */
  lemma AfterEqualsField(name: string, value: string, more: string)
    requires '=' !in name && '=' !in value
    requires more == "" || more[0] == '='
    ensures AfterEquals(name + "=" + value + more) == Trim(value, PySpace)
  {
    var line := name + "=" + value + more;
    assert line == name + ['='] + (value + more);
    assert line[|name|] == '=';
    SplitPrefix(name, '=', value + more);
    if more == "" {
      assert value + more == value;
      SplitWhole(value, '=');
    } else {
      assert value + more == value + ['='] + more[1..];
      SplitPrefix(value, '=', more[1..]);
    }
  }

  /** The value part holds no `=`, so taking it twice changes nothing. */
  lemma AfterEqualsIdempotent(line: string)
    ensures AfterEquals(AfterEquals(line)) == AfterEquals(line)
  {
    if '=' in line {
      SplitAtSeparator(line, '=');
      TrimWithin(Split(line, '=')[1], PySpace, '=');
    }
  }

  /** What `ast.literal_eval` did with a text. */
  datatype LiteralOutcome =
    | Evaluated(value: PyValue)   // it returned a value
    | Rejected                    // it raised SyntaxError or ValueError, which `parse_input` catches
    | Raised                      // it raised anything else, which escapes `parse_input`

  /** The foreign evaluators `parse_input` relies on. */
  datatype Evaluator = Evaluator(
    literalEval: string -> LiteralOutcome,
    floatRepr: string -> Option<string>)   // `repr(float(u))`, or None when `float(u)` raises

  /** Upper-case form of a lower-case ASCII letter. */
  function Upper(c: char): char
  {
    if 'a' <= c <= 'z' then ((c as int) - 32) as char else c
  }

  /**
   * `u.lower() == word` for a lower-case ASCII word.  No character outside
   * ASCII lower-cases to one of the letters of `true` or `false`, so only the
   * ASCII capitals need to be allowed.
   */
  predicate LowerEquals(u: string, word: string)
  {
    |u| == |word| && forall k | 0 <= k < |u| :: u[k] == word[k] || u[k] == Upper(word[k])
  }

  /** Digits with single underscores between them, as Python `int()` accepts. */
  predicate IntDigits(b: string)
  {
    |b| > 0 && IsDigit(b[0]) && IsDigit(b[|b| - 1]) && !Contains(b, "__")
    && forall k | 0 <= k < |b| :: IsDigit(b[k]) || b[k] == '_'
  }

  function DropUnderscores(b: string): (r: string)
    requires forall k | 0 <= k < |b| :: IsDigit(b[k]) || b[k] == '_'
    ensures forall k | 0 <= k < |r| :: IsDigit(r[k])
  {
    if b == [] then []
    else if b[0] == '_' then DropUnderscores(b[1..])
    else [b[0]] + DropUnderscores(b[1..])
  }

  /** Python `int(u)` on a string: surrounding whitespace, an optional sign, underscored digits. */
  function PyIntOf(u: string): (r: Option<int>)
    ensures Trim(u, PySpace) == "" ==> r.None?
    ensures r.Some? && r.value < 0 ==> Trim(u, PySpace)[0] == '-'
  {
    SignedInt(Trim(u, PySpace))
  }

  /** `int()` once the whitespace is stripped. */
  function SignedInt(w: string): Option<int>
  {
    if w != "" && (w[0] == '+' || w[0] == '-') then
      var b := w[1..];
      if IntDigits(b) then
        var n := DecimalValue(DropUnderscores(b));
        Some(if w[0] == '-' then -(n as int) else n)
      else None
    else if IntDigits(w) then Some(DecimalValue(DropUnderscores(w)))
    else None
  }

  /** The fallback of `parse_input` once `ast.literal_eval` has rejected the text. */
  function Fallback(text: string, floatRepr: string -> Option<string>): (r: PyValue)
    ensures !r.PyNone? && !r.PyList?
    ensures r.PyStr? ==> r.s == Trim(text, Quote)
  {
    var u := Trim(text, Quote);
    if LowerEquals(u, "true") then PyBool(true)
    else if LowerEquals(u, "false") then PyBool(false)
    else
      match PyIntOf(u)
      case Some(n) => PyInt(n)
      case None =>
        match floatRepr(u)
        case Some(r) => PyFloat(r)
        case None => PyStr(u)
  }

  /** `parse_input`; None when an exception escapes it. */
  function ParseInput(line: string, ev: Evaluator): (r: Option<PyValue>)
    ensures r.None? <==> ev.literalEval(AfterEquals(line)).Raised?
  {
    var t := AfterEquals(line);
    match ev.literalEval(t)
    case Evaluated(v) => Some(v)
    case Raised => None
    case Rejected => Some(Fallback(t, ev.floatRepr))
  }

  lemma {:induction false} DropUnderscoresNone(d: string)
    requires forall k | 0 <= k < |d| :: IsDigit(d[k])
    ensures DropUnderscores(d) == d
  {
    if d != [] {
      DropUnderscoresNone(d[1..]);
    }
  }

  /** Python `int()` reads back what `str()` writes for an integer. */
  lemma PyIntOfRoundTrip(i: int)
    ensures PyIntOf(IntToString(i)) == Some(i)
  {
    if i < 0 {
      var n: nat := -i;
      assert IntToString(i) == "-" + NatToString(n);
      PyIntOfNegativeRoundTrip(n);
    } else {
      assert IntToString(i) == NatToString(i);
      PyIntOfNatRoundTrip(i);
    }
  }

  lemma PyIntOfNatRoundTrip(n: nat)
    ensures PyIntOf(NatToString(n)) == Some(n)
  {
    var d := NatToString(n);
    DecimalRoundTrip(n);
    PyIntOfPlain(d, n);
  }

  lemma PyIntOfNegativeRoundTrip(n: nat)
    ensures PyIntOf("-" + NatToString(n)) == Some(-(n as int))
  {
    var d := NatToString(n);
    var w := "-" + d;
    assert w[0] == '-' && w[1..] == d;
    DecimalRoundTrip(n);
    PyIntOfNegative(w, d, n);
  }

  lemma NoUnderscores(d: string)
    requires d != [] && forall k | 0 <= k < |d| :: IsDigit(d[k])
    ensures IntDigits(d)
  {
    forall i | 0 <= i <= |d| - 2 ensures !OccursAt(d, "__", i) {
      assert d[i..i + 2][0] == d[i];
    }
  }

  lemma SignedIntPlain(d: string)
    requires d != [] && forall k | 0 <= k < |d| :: IsDigit(d[k])
    ensures SignedInt(d) == Some(DecimalValue(d))
  {
    NoUnderscores(d);
    DropUnderscoresNone(d);
  }

  lemma SignedIntNegative(w: string, d: string)
    requires d != [] && forall k | 0 <= k < |d| :: IsDigit(d[k])
    requires w != [] && w[0] == '-' && w[1..] == d
    ensures SignedInt(w) == Some(-(DecimalValue(d) as int))
  {
    NoUnderscores(d);
    DropUnderscoresNone(d);
  }

  /** With nothing to strip, `int()` reads the word as it stands. */
  lemma PyIntOfUnpadded(w: string)
    requires w != [] && !In(w[0], PySpace) && !In(w[|w| - 1], PySpace)
    ensures PyIntOf(w) == SignedInt(w)
  {
    TrimNoop(w, PySpace);
  }

  lemma PyIntOfPlain(d: string, n: nat)
    requires d != [] && forall k | 0 <= k < |d| :: IsDigit(d[k])
    requires DecimalValue(d) == n
    ensures PyIntOf(d) == Some(n)
  {
    PyIntOfUnpadded(d);
    SignedIntPlain(d);
  }

  lemma PyIntOfNegative(w: string, d: string, n: nat)
    requires d != [] && forall k | 0 <= k < |d| :: IsDigit(d[k])
    requires w != [] && w[0] == '-' && w[1..] == d && DecimalValue(d) == n
    ensures PyIntOf(w) == Some(-(n as int))
  {
    assert w[|w| - 1] == d[|d| - 1];
    PyIntOfUnpadded(w);
    SignedIntNegative(w, d);
  }

  /** A word that `int()` accepts and that cannot spell a boolean is read as that integer. */
  lemma FallbackReadsInt(u: string, n: int, floatRepr: string -> Option<string>)
    requires u != [] && !In(u[0], Quote) && !In(u[|u| - 1], Quote)
    requires u[0] == '-' || IsDigit(u[0])
    requires PyIntOf(u) == Some(n)
    ensures Fallback(u, floatRepr) == PyInt(n)
  {
    TrimNoop(u, Quote);
    assert !LowerEquals(u, "true") && !LowerEquals(u, "false");
  }

  /** A rendered integer that `ast.literal_eval` rejects still comes back as that integer. */
  lemma FallbackInteger(i: int, floatRepr: string -> Option<string>)
    ensures Fallback(IntToString(i), floatRepr) == PyInt(i)
  {
    var s := IntToString(i);
    assert s[0] == '-' || IsDigit(s[0]);
    assert IsDigit(s[|s| - 1]);
    PyIntOfRoundTrip(i);
    FallbackReadsInt(s, i, floatRepr);
  }

  /** `strip('"\'')` removes one pair of surrounding quotes from a word that does not itself start or end with one. */
  lemma StripQuotes(quote: string, u: string)
    requires quote == "" || quote == "\"" || quote == "'"
    requires u != [] && !In(u[0], Quote) && !In(u[|u| - 1], Quote)
    ensures Trim(quote + u + quote, Quote) == u
  {
    var text := quote + u + quote;
    if quote != "" {
      assert text[0] == quote[0] && text[1] == u[0];
      SpanExact(text, 0, 1, Quote);
      assert text[1..] == u + quote;
      assert (u + quote)[|u| - 1] == u[|u| - 1];
      SpanBackExact(text[1..], |u|, |u| + 1, Quote);
      assert text[1..][..|u|] == u;
    } else {
      assert text == u;
      TrimNoop(text, Quote);
    }
  }

  /** `true` and `false` are recognised in any mix of cases, inside quotes or not. */
  lemma FallbackBoolean(quote: string, u: string, b: bool, floatRepr: string -> Option<string>)
    requires quote == "" || quote == "\"" || quote == "'"
    requires LowerEquals(u, if b then "true" else "false")
    ensures Fallback(quote + u + quote, floatRepr) == PyBool(b)
  {
    var word := if b then "true" else "false";
    assert u[0] == word[0] || u[0] == Upper(word[0]);
    assert u[|u| - 1] == word[|word| - 1] || u[|u| - 1] == Upper(word[|word| - 1]);
    StripQuotes(quote, u);
  }

  /** `name = value` lines: a literal value is taken as evaluated. */
  lemma ParseInputField(name: string, value: string, ev: Evaluator, v: PyValue)
    requires '=' !in name && '=' !in value
    requires ev.literalEval(Trim(value, PySpace)) == Evaluated(v)
    ensures ParseInput(name + "=" + value, ev) == Some(v)
  {
    AfterEqualsField(name, value, "");
    assert name + "=" + value + "" == name + "=" + value;
  }

  // ---------------------------------------------------------------- convert_to_str

  /** `convert_to_str`: lists as JSON, booleans in lower case, strings in double quotes, the rest by `str`. */
  function ConvertToStr(v: PyValue): string
  {
    match v
    case PyList(_) => Dumps(v)
    case PyBool(b) => if b then "true" else "false"
    case PyStr(s) => "\"" + s + "\""
    case PyNone => "None"
    case PyInt(i) => IntToString(i)
    case PyFloat(r) => r
  }

  /** Lists, booleans and integers are rendered as JSON. */
  lemma ConvertToStrIsJson(v: PyValue)
    requires v.PyList? || v.PyBool? || v.PyInt?
    ensures ConvertToStr(v) == Dumps(v)
  {
  }

  lemma ConvertToStrLead(v: PyValue)
    requires FloatFree(v)
    ensures ConvertToStr(v) != ""
    ensures v.PyStr? <==> ConvertToStr(v)[0] == '"'
    ensures v.PyNone? <==> ConvertToStr(v)[0] == 'N'
  {
    if v.PyList? {
      DumpsList(v.items);
    } else if v.PyInt? {
      if v.i < 0 {
        assert IntToString(v.i)[0] == '-';
      } else {
        assert IsDigit(NatToString(v.i)[0]);
      }
    }
  }

  /** Two float-free values render alike exactly when they are equal. */
  lemma ConvertToStrInjective(a: PyValue, b: PyValue)
    requires FloatFree(a) && FloatFree(b)
    ensures ConvertToStr(a) == ConvertToStr(b) <==> a == b
  {
    if ConvertToStr(a) == ConvertToStr(b) {
      ConvertToStrLead(a);
      ConvertToStrLead(b);
      if a.PyStr? {
        var s := ConvertToStr(a);
        assert a.s == s[1..|s| - 1] == b.s;
      } else if !a.PyNone? {
        DumpsRoundTrip(a, "");
        DumpsRoundTrip(b, "");
        assert Dumps(a) + "" == Dumps(a) && Dumps(b) + "" == Dumps(b);
      }
    }
  }

  // ---------------------------------------------------------------- fixtures

  /** A file the runner counts as a fixture of the given kind. */
  predicate IsFixture(name: string, prefix: string)
  {
    StartsWith(name, prefix) && EndsWith(name, ".txt")
  }

  function Select(listing: seq<string>, prefix: string): (r: seq<string>)
    ensures forall n :: n in r <==> n in listing && IsFixture(n, prefix)
  {
    if listing == [] then []
    else (if IsFixture(listing[0], prefix) then [listing[0]] else []) + Select(listing[1..], prefix)
  }

  /** The sorted fixture names of one kind, as `sorted([f for f in os.listdir(...) if ...])`. */
  function Fixtures(listing: seq<string>, prefix: string): seq<string>
  {
    Sorted(Select(listing, prefix))
  }

  /** The fixtures are exactly the matching names, each once per listing entry, in ascending order. */
  lemma FixturesSorted(listing: seq<string>, prefix: string)
    ensures Ascending(Fixtures(listing, prefix))
    ensures multiset(Fixtures(listing, prefix)) == multiset(Select(listing, prefix))
    ensures forall n :: n in Fixtures(listing, prefix) <==> n in listing && IsFixture(n, prefix)
  {
    SortedAscending(Select(listing, prefix));
    forall n ensures n in Fixtures(listing, prefix) <==> n in Select(listing, prefix) {
      assert n in multiset(Fixtures(listing, prefix)) <==> n in multiset(Select(listing, prefix));
    }
  }

  /** Comparison is by characters, not numbers: the tenth input sorts before the second. */
  lemma TenthBeforeSecond(a: string, b: string)
    requires a == "input_10.txt" && b == "input_2.txt"
    ensures Below(a, b)
  {
    var p := "input_";
    assert a == p + "10.txt" && b == p + "2.txt";
    BelowAfterCommonPrefix(p, "10.txt", "2.txt");
  }

  lemma {:induction false} BelowAfterCommonPrefix(p: string, x: string, y: string)
    requires Below(x, y)
    ensures Below(p + x, p + y)
  {
    if p != [] {
      assert (p + x)[1..] == p[1..] + x && (p + y)[1..] == p[1..] + y;
      BelowAfterCommonPrefix(p[1..], x, y);
    } else {
      assert p + x == x && p + y == y;
    }
  }

  // ---------------------------------------------------------------- run_test_cases

  datatype Verdict = Passed | Failed(expected: string, got: string) | Errored

  /** The printed tally, or the verdicts printed before an uncaught `Exception` ended the run. */
  datatype Report =
    | Completed(verdicts: seq<Verdict>, passed: nat, total: nat)
    | Aborted(verdicts: seq<Verdict>)

  /**
   * One run: the test directory's listing, the contents of the files that can
   * be read, the evaluators, and the solution (None when calling it raises an `Exception`).
   */
  datatype Session = Session(
    listing: seq<string>,
    files: map<string, string>,
    ev: Evaluator,
    solve: seq<PyValue> -> Option<PyValue>)

  function Inputs(s: Session): seq<string>
  {
    Fixtures(s.listing, "input")
  }

  function Outputs(s: Session): seq<string>
  {
    Fixtures(s.listing, "output")
  }

  /** `[parse_input(inp) for inp in inputs]`; None when one of them raises. */
  function ParseAll(lines: seq<string>, ev: Evaluator): (r: Option<seq<PyValue>>)
    ensures r.Some? <==> forall k | 0 <= k < |lines| :: ParseInput(lines[k], ev).Some?
    ensures r.Some? ==> |r.value| == |lines| && forall k | 0 <= k < |lines| :: r.value[k] == ParseInput(lines[k], ev).value
  {
    if lines == [] then Some([])
    else
      match ParseInput(lines[0], ev)
      case None => None
      case Some(v) =>
        match ParseAll(lines[1..], ev)
        case None => None
        case Some(vs) => Some([v] + vs)
  }

  /** The comparison inside the `try`: both sides rendered, then compared as text. */
  function Judge(result: Option<PyValue>, expected: PyValue): (v: Verdict)
    ensures v == Errored <==> result.None?
  {
    match result
    case None => Errored
    case Some(r) =>
      if ConvertToStr(r) == ConvertToStr(expected) then Passed
      else Failed(ConvertToStr(expected), ConvertToStr(r))
  }

  /** The arguments of case `i`: its input file read and each line parsed; None when that raises. */
  function CaseArgs(s: Session, i: nat): Option<seq<PyValue>>
    requires i < |Inputs(s)|
  {
    var input := Inputs(s)[i];
    if input !in s.files then None else ParseAll(InputLines(s.files[input]), s.ev)
  }

  /**
   * Case `i`: None when the run ends there — no `i`-th output file, an
   * unreadable file, or an exception from `parse_input` — otherwise its verdict.
   */
  function CaseOutcome(s: Session, i: nat): (r: Option<Verdict>)
    requires i < |Inputs(s)|
    ensures r.Some? ==> i < |Outputs(s)| && Inputs(s)[i] in s.files && Outputs(s)[i] in s.files
  {
    var outs := Outputs(s);
    if i >= |outs| then None
    else
      match CaseArgs(s, i)
      case None => None
      case Some(args) =>
        if outs[i] !in s.files then None
        else
          match ParseInput(Trim(TranslateNewlines(s.files[outs[i]]), PySpace), s.ev)
          case None => None
          case Some(expected) => Some(Judge(s.solve(args), expected))
  }

  function CountPassed(vs: seq<Verdict>): (n: nat)
    ensures n <= |vs|
  {
    if vs == [] then 0 else CountPassed(vs[..|vs| - 1]) + (if vs[|vs| - 1] == Passed then 1 else 0)
  }

  /** The outcomes of cases `0` to `k - 1`, in the order the loop meets them. */
  function Cases(s: Session, k: nat): (r: seq<Option<Verdict>>)
    requires k <= |Inputs(s)|
    ensures |r| == k && forall i | 0 <= i < k :: r[i] == CaseOutcome(s, i)
  {
    seq(k, i requires 0 <= i < k => CaseOutcome(s, i))
  }

  /** The verdicts collected from a run of case outcomes, and whether the run ended among them. */
  function Tally(cs: seq<Option<Verdict>>): (r: (seq<Verdict>, bool))
    ensures |r.0| <= |cs|
    ensures !r.1 ==> |r.0| == |cs|
  {
    if cs == [] then ([], false)
    else
      var (vs, ended) := Tally(cs[..|cs| - 1]);
      if ended then (vs, true)
      else
        match cs[|cs| - 1]
        case None => (vs, true)
        case Some(v) => (vs + [v], false)
  }

  function RunReport(s: Session): (r: Report)
    ensures r.Completed? ==> r.total == |Inputs(s)| && r.passed <= r.total
  {
    var (vs, ended) := Tally(Cases(s, |Inputs(s)|));
    if ended then Aborted(vs) else Completed(vs, CountPassed(vs), |Inputs(s)|)
  }

  /** The status `sys.exit` is given: the number of failed cases, or 1 when an uncaught `Exception` ended the run. */
  function ExitCode(r: Report): (status: int)
    ensures status == 0 ==> r.Completed?
    ensures r.Completed? ==> (status == 0 <==> r.passed == r.total)
  {
    match r
    case Completed(_, passed, total) => total - passed
    case Aborted(_) => 1
  }

  /** `run_test_cases`: runs the cases in order, counting those that pass. */
  method RunTestCases(s: Session) returns (report: Report)
    ensures report == RunReport(s)
    ensures report.Completed? ==> report.passed <= report.total && ExitCode(report) == report.total - report.passed
  {
    var total := |Inputs(s)|;
    ghost var cs := Cases(s, total);
    var verdicts: seq<Verdict> := [];
    var passed := 0;
    var i := 0;
    while i < total
      invariant 0 <= i <= total
      invariant Tally(cs[..i]) == (verdicts, false)
      invariant passed == CountPassed(verdicts)
    {
      var outcome := CaseOutcome(s, i);
      TallyStep(cs, i);
      if outcome.None? {
        TallyEnded(cs[..i + 1], cs[i + 1..]);
        return Aborted(verdicts);
      }
      assert (verdicts + [outcome.value])[..|verdicts|] == verdicts;
      verdicts := verdicts + [outcome.value];
      if outcome.value == Passed {
        passed := passed + 1;
      }
      i := i + 1;
    }
    assert cs[..i] == cs;
    report := Completed(verdicts, passed, total);
  }

  /** One more case: the tally of the first `i + 1` outcomes from that of the first `i`. */
  lemma TallyStep(cs: seq<Option<Verdict>>, i: nat)
    requires i < |cs|
    ensures cs[..i + 1] + cs[i + 1..] == cs
    ensures Tally(cs[..i + 1]) ==
      (var (vs, ended) := Tally(cs[..i]);
       if ended then (vs, true)
       else match cs[i]
         case None => (vs, true)
         case Some(v) => (vs + [v], false))
  {
    assert cs[..i + 1][..i] == cs[..i];
  }

  /** Once the run has ended, later cases add nothing. */
  lemma {:induction false} TallyEnded(cs: seq<Option<Verdict>>, more: seq<Option<Verdict>>)
    requires Tally(cs).1
    ensures Tally(cs + more) == Tally(cs)
    decreases |more|
  {
    if more != [] {
      TallyEnded(cs, more[..|more| - 1]);
      assert (cs + more)[..|cs + more| - 1] == cs + more[..|more| - 1];
    } else {
      assert cs + more == cs;
    }
  }

  /** Before the run ends, the verdicts are the cases' own verdicts, in order. */
  lemma {:induction false} TallyPointwise(cs: seq<Option<Verdict>>)
    requires !Tally(cs).1
    ensures forall i | 0 <= i < |cs| :: cs[i] == Some(Tally(cs).0[i])
  {
    if cs != [] {
      var prev := cs[..|cs| - 1];
      TallyPointwise(prev);
      forall i | 0 <= i < |cs| ensures cs[i] == Some(Tally(cs).0[i]) {
        if i < |cs| - 1 {
          assert cs[i] == prev[i];
        }
      }
    }
  }

  /** A case whose run ends stops the tally there: no verdict is recorded from it on. */
  lemma {:induction false} TallyStopsAt(cs: seq<Option<Verdict>>, i: nat)
    requires i < |cs| && cs[i] == None
    ensures Tally(cs).1 && |Tally(cs).0| <= i
  {
    if i < |cs| - 1 {
      TallyStopsAt(cs[..|cs| - 1], i);
    }
  }

  /** A completed run has one verdict per input file, each decided by its own case alone, and tallies the passes. */
  lemma CompletedRun(s: Session)
    requires RunReport(s).Completed?
    ensures var r := RunReport(s);
            |r.verdicts| == r.total == |Inputs(s)| && r.passed == CountPassed(r.verdicts) <= r.total
            && (forall i | 0 <= i < r.total :: CaseOutcome(s, i) == Some(r.verdicts[i]))
            && ExitCode(r) == r.total - r.passed
  {
    TallyPointwise(Cases(s, |Inputs(s)|));
  }

  /** With fewer output files than input files the run never completes. */
  lemma MissingOutputAborts(s: Session)
    requires |Outputs(s)| < |Inputs(s)|
    ensures RunReport(s).Aborted? && |RunReport(s).verdicts| <= |Outputs(s)|
  {
    var m := |Outputs(s)|;
    assert CaseOutcome(s, m) == None;
    TallyStopsAt(Cases(s, |Inputs(s)|), m);
  }

  /** For float-free values, a case passes exactly when the solution returns the expected value. */
  lemma PassesIffEqual(result: PyValue, expected: PyValue)
    requires FloatFree(result) && FloatFree(expected)
    ensures Judge(Some(result), expected) == Passed <==> result == expected
  {
    ConvertToStrInjective(result, expected);
  }

  /** Unlike Python's `True == 1`, a solution returning `True` fails a case expecting `1`. */
  lemma TrueIsNotOne()
    ensures Judge(Some(PyBool(true)), PyInt(1)) == Failed("1", "true")
  {
  }

  /** Whether a case reaches a verdict does not depend on the solution: every `Exception`
      that ends the run is raised before the `try`. */
  lemma SolveKeepsReach(s: Session, f: seq<PyValue> -> Option<PyValue>, i: nat)
    requires i < |Inputs(s)|
    ensures CaseOutcome(s, i).Some? == CaseOutcome(s.(solve := f), i).Some?
  {
  }

  /** A case whose arguments make the solution raise an `Exception` is an error, if it reaches a verdict at all. */
  lemma RaisingCaseErrs(s: Session, i: nat)
    requires i < |Inputs(s)| && CaseArgs(s, i).Some? && s.solve(CaseArgs(s, i).value) == None
    ensures CaseOutcome(s, i) == None || CaseOutcome(s, i) == Some(Errored)
  {
  }

  /** A case's verdict depends on the solution only through the solution's result on its arguments. */
  lemma SameResultSameOutcome(s: Session, f: seq<PyValue> -> Option<PyValue>, i: nat)
    requires i < |Inputs(s)|
    requires CaseArgs(s, i).Some? ==> f(CaseArgs(s, i).value) == s.solve(CaseArgs(s, i).value)
    ensures CaseOutcome(s.(solve := f), i) == CaseOutcome(s, i)
  {
  }

  /** A run of cases that all reach a verdict never ends early. */
  lemma {:induction false} TallyCompletes(cs: seq<Option<Verdict>>)
    requires forall i | 0 <= i < |cs| :: cs[i].Some?
    ensures !Tally(cs).1
  {
    if cs != [] {
      var prev := cs[..|cs| - 1];
      assert forall i | 0 <= i < |prev| :: prev[i] == cs[i];
      TallyCompletes(prev);
    }
  }

  /** When every case reaches a verdict, the run completes: the converse of `CompletedRun`. */
  lemma AllVerdictsComplete(s: Session)
    requires forall i | 0 <= i < |Inputs(s)| :: CaseOutcome(s, i).Some?
    ensures RunReport(s).Completed?
  {
    TallyCompletes(Cases(s, |Inputs(s)|));
  }

  /**
   * An `Exception` from the solution is caught: if the run completes with one solution, then
   * with a solution `f` that raises on case `i` and agrees on every other case, the run still
   * completes, case `i` is an error, and every other case keeps its verdict.
   */
  lemma RaisingSolutionErrs(s: Session, f: seq<PyValue> -> Option<PyValue>, i: nat)
    requires RunReport(s).Completed? && i < |Inputs(s)|
    requires CaseArgs(s, i).Some? && f(CaseArgs(s, i).value) == None
    requires forall j | 0 <= j < |Inputs(s)| && j != i && CaseArgs(s, j).Some? ::
               f(CaseArgs(s, j).value) == s.solve(CaseArgs(s, j).value)
    ensures var r := RunReport(s.(solve := f));
            && r.Completed?
            && r.verdicts[i] == Errored
            && forall j | 0 <= j < |Inputs(s)| && j != i :: r.verdicts[j] == RunReport(s).verdicts[j]
  {
    var s2 := s.(solve := f);
    CompletedRun(s);
    forall j | 0 <= j < |Inputs(s2)|
      ensures CaseOutcome(s2, j).Some?
    {
      SolveKeepsReach(s, f, j);
    }
    AllVerdictsComplete(s2);
    CompletedRun(s2);
    RaisingCaseErrs(s2, i);
    forall j | 0 <= j < |Inputs(s)| && j != i
      ensures RunReport(s2).verdicts[j] == RunReport(s).verdicts[j]
    {
      SameResultSameOutcome(s, f, j);
    }
  }

  // ---------------------------------------------------------------- exit status

  /** What the shell sees: POSIX keeps only the low eight bits of the code given to `sys.exit`. */
  function ProcessStatus(r: Report): (status: int)
    ensures 0 <= status < 256
  {
    ExitCode(r) % 256
  }

  /** As written, 256 failures exit with status 0, the status of a fully passing run. */
  lemma StatusWrapsAround(r: Report)
    requires r.Completed? && r.total == r.passed + 256
    ensures ProcessStatus(r) == 0 && r.passed < r.total
  {
  }

  /** The status a shell can rely on: the number of failures, capped at 255, and 1 for an ended run. */
  function CorrectedStatus(r: Report): (status: int)
    ensures 0 <= status <= 255
  {
    var code := ExitCode(r);
    if code < 0 then 1 else if code > 255 then 255 else code
  }

  /** The corrected status is zero exactly when every case of a completed run passed. */
  lemma CorrectedStatusFlagsFailures(r: Report)
    requires r.Completed? ==> r.passed <= r.total
    ensures CorrectedStatus(r) == 0 <==> (r.Completed? && r.passed == r.total)
    ensures r.Completed? && r.total - r.passed <= 255 ==> CorrectedStatus(r) == r.total - r.passed
  {
  }
}
